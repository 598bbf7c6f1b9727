/**
  The sequential control plane of a community: its records, its votes and its audit chain.

  What a successful call changes is a `Mutation`. A history of mutations determines both the
  records and the audit events; every property below is a property of all legal histories.
 */
module ControlPlane {
  import opened Wrappers
  import opened ByteStrings
  import opened MachineIntegers
  import opened Identity
  import opened Text
  import opened Merkle
  import opened Audit
  import opened Canonical
  import opened Credentials
  import opened Credit

  datatype ControlError =
    | Conflict
    | NotFound
    | Unauthorized
    | InvalidSignature
    | Replay
    | State
    | Snapshot
    | CreditRefused(reason: CreditError)

  datatype Community = Community(
    communityId: Bytes,
    name: Bytes,
    rootPublicKey: Bytes,
    createdAt: I64,
    policyVersion: U32,
    status: string)

  datatype Member = Member(
    memberId: Bytes,
    publicKey: Bytes,
    roles: seq<Bytes>,
    status: string,
    credential: MembershipCredential)

  datatype NodeRecord = NodeRecord(
    nodeId: Bytes,
    ownerMemberId: Bytes,
    failureDomain: Bytes,
    region: Bytes,
    maxStorageBytes: U64,
    usedStorageBytes: U64,
    lastHeartbeatAt: I64,
    status: string)

  datatype ObjectKind = DataChunk | EncryptedManifest | EncryptedCatalog

  datatype ObjectRecord = ObjectRecord(
    objectCid: Bytes,
    ciphertextSize: U64,
    objectKind: ObjectKind,
    replicaTarget: Byte,
    createdAt: I64)

  datatype Placement = Placement(
    placementId: Bytes,
    objectCid: Bytes,
    nodeId: Bytes,
    status: string,
    createdAt: I64)

  datatype CatalogPointer = CatalogPointer(
    vaultId: Bytes,
    catalogCid: Bytes,
    version: U64,
    previousCid: Option<Bytes>,
    signedAt: I64,
    ownerSignature: Signature<Bytes>)

  datatype Proposal = Proposal(
    proposalId: Bytes,
    title: Bytes,
    body: Bytes,
    createdByMemberId: Bytes,
    opensAt: I64,
    closesAt: I64,
    quorumPercent: Byte,
    thresholdPercent: Byte)

  datatype VoteChoice = Yes | No | Abstain

  datatype Vote = Vote(
    proposalId: Bytes,
    memberId: Bytes,
    choice: VoteChoice,
    castAt: I64,
    memberSignature: Signature<Bytes>)

  datatype VoteResult = VoteResult(yes: nat, no: nat, abstain: nat, eligibleMembers: nat)

  type VoteKey = (Bytes, Bytes)

  function KeyOf(v: Vote): VoteKey {
    (v.proposalId, v.memberId)
  }

  function PointerBytes(p: CatalogPointer): Bytes {
    Joined([
      Ascii("acm.catalog-pointer.v1"), p.vaultId, p.catalogCid, Decimal(p.version),
      if p.previousCid.Some? then p.previousCid.value else [], Decimal(p.signedAt) ])
  }

  function ChoiceName(c: VoteChoice): Bytes {
    match c
    case Yes => Ascii("Yes")
    case No => Ascii("No")
    case Abstain => Ascii("Abstain")
  }

  function VoteBytes(v: Vote): Bytes {
    Joined([Ascii("acm.vote.v1"), v.proposalId, v.memberId, ChoiceName(v.choice), Decimal(v.castAt)])
  }

  // ---------- records and the mutations that make them ----------

  datatype Records = Records(
    members: map<Bytes, Member>,
    nodes: map<Bytes, NodeRecord>,
    objects: map<Bytes, ObjectRecord>,
    placements: map<Bytes, Placement>,
    pointers: map<Bytes, CatalogPointer>,
    proposals: map<Bytes, Proposal>,
    votes: map<VoteKey, Vote>,
    voteHistory: seq<Vote>,
    credits: map<Bytes, seq<CreditEntry>>)

  datatype Mutation =
    | MemberAdded(member: Member, at: I64)
    | NodeRegistered(actor: Bytes, node: NodeRecord, at: I64)
    | ObjectRegistered(actor: Bytes, object_: ObjectRecord, at: I64)
    | PlacementAdded(actor: Bytes, placement: Placement, at: I64)
    | PointerUpdated(actor: Bytes, pointer: CatalogPointer)
    | CreditRecorded(actor: Bytes, entry: CreditEntry)
    | ProposalCreated(proposal: Proposal, at: I64)
    | VoteCast(vote: Vote)

  /** Who may act, and on what community. */
  datatype Setting = Setting(hash: Hash, community: Community)

  predicate IsActive(s: Records, memberId: Bytes) {
    memberId in s.members && s.members[memberId].status == "active"
  }

  function Ledger(credits: map<Bytes, seq<CreditEntry>>, memberId: Bytes): seq<CreditEntry> {
    if memberId in credits then credits[memberId] else []
  }

  predicate HasHealthy(placements: map<Bytes, Placement>, objectCid: Bytes, nodeId: Bytes) {
    exists id :: id in placements && placements[id].objectCid == objectCid && placements[id].nodeId == nodeId && placements[id].status == "healthy"
  }

  /** A vault's next pointer is one version on and names the current catalog. */
  predicate Succeeds(pointers: map<Bytes, CatalogPointer>, p: CatalogPointer) {
    if p.vaultId in pointers then
      p.version == pointers[p.vaultId].version + 1 && p.previousCid == Some(pointers[p.vaultId].catalogCid)
    else
      p.version == 1 && p.previousCid.None?
  }

  function Trusted(env: Setting, m: Member, now: I64): bool {
    VerifyTrusted(env.hash, m.credential, env.community.communityId, env.community.rootPublicKey, now, 300).Ok?
  }

  function Decide(env: Setting, s: Records, m: Mutation): Result<(), ControlError> {
    match m
    case MemberAdded(member, at) =>
      if !Trusted(env, member, at) then Err(InvalidSignature)
      else if || member.publicKey != member.credential.claims.memberPublicKey
              || member.memberId != member.credential.claims.memberId
              || member.memberId in s.members
      then Err(Conflict)
      else Ok(())
    case NodeRegistered(actor, node, _) =>
      if !IsActive(s, actor) then Err(Unauthorized)
      else if node.ownerMemberId != actor || node.maxStorageBytes == 0 || node.nodeId in s.nodes then Err(State)
      else Ok(())
    case ObjectRegistered(actor, obj, _) =>
      if !IsActive(s, actor) then Err(Unauthorized)
      else if !IsCidText(obj.objectCid) || obj.ciphertextSize == 0 || obj.objectCid in s.objects then Err(State)
      else Ok(())
    case PlacementAdded(actor, p, _) =>
      if !IsActive(s, actor) then Err(Unauthorized)
      else if || p.objectCid !in s.objects
              || p.nodeId !in s.nodes
              || p.placementId in s.placements
              || HasHealthy(s.placements, p.objectCid, p.nodeId)
      then Err(State)
      else Ok(())
    case PointerUpdated(actor, p) =>
      if !IsActive(s, actor) then Err(Unauthorized)
      else if !MemberSigned(s.members[actor].credential, PointerBytes(p), p.ownerSignature) then Err(InvalidSignature)
      else if !Succeeds(s.pointers, p) then Err(State)
      else Ok(())
    case CreditRecorded(actor, entry) =>
      if !IsActive(s, actor) then Err(Unauthorized)
      else
        (match Refusal(Ledger(s.credits, actor), entry)
         case Some(reason) => Err(CreditRefused(reason))
         case None => Ok(()))
    case ProposalCreated(p, _) =>
      if !IsActive(s, p.createdByMemberId) then Err(Unauthorized)
      else if p.opensAt >= p.closesAt || p.quorumPercent > 100 || p.thresholdPercent > 100 || p.proposalId in s.proposals then Err(State)
      else Ok(())
    case VoteCast(v) =>
      if !IsActive(s, v.memberId) then Err(Unauthorized)
      else if v.proposalId !in s.proposals then Err(NotFound)
      else if v.castAt < s.proposals[v.proposalId].opensAt || v.castAt > s.proposals[v.proposalId].closesAt then Err(State)
      else if !MemberSigned(s.members[v.memberId].credential, VoteBytes(v), v.memberSignature) then Err(InvalidSignature)
      else if KeyOf(v) in s.votes then Err(State)
      else Ok(())
  }

  function Apply(s: Records, m: Mutation): Records {
    match m
    case MemberAdded(member, _) => s.(members := s.members[member.memberId := member])
    case NodeRegistered(_, node, _) => s.(nodes := s.nodes[node.nodeId := node])
    case ObjectRegistered(_, obj, _) => s.(objects := s.objects[obj.objectCid := obj])
    case PlacementAdded(_, p, _) => s.(placements := s.placements[p.placementId := p])
    case PointerUpdated(_, p) => s.(pointers := s.pointers[p.vaultId := p])
    case CreditRecorded(actor, entry) => s.(credits := s.credits[actor := Ledger(s.credits, actor) + [entry]])
    case ProposalCreated(p, _) => s.(proposals := s.proposals[p.proposalId := p])
    case VoteCast(v) => s.(votes := s.votes[KeyOf(v) := v], voteHistory := s.voteHistory + [v])
  }

  function ReasonName(r: CreditReason): Bytes {
    match r
    case MonthlyBaseGrant => Ascii("MonthlyBaseGrant")
    case AuditedStorageEarned => Ascii("AuditedStorageEarned")
    case ReplicatedStorageConsumed => Ascii("ReplicatedStorageConsumed")
    case Expired => Ascii("Expired")
  }

  /** When a mutation is said to have happened, of what kind it was, who did it and to what. */
  function Entry(m: Mutation): (I64, string, Bytes, Bytes) {
    match m
    case MemberAdded(member, at) => (at, "membership_approved", member.memberId, member.memberId)
    case NodeRegistered(actor, node, at) => (at, "node_registered", actor, node.nodeId)
    case ObjectRegistered(actor, obj, at) => (at, "object_registered", actor, obj.objectCid)
    case PlacementAdded(actor, p, at) => (at, "placement_created", actor, p.placementId)
    case PointerUpdated(actor, p) => (p.signedAt, "catalog_pointer_updated", actor, p.vaultId)
    case CreditRecorded(actor, entry) => (entry.occurredAt, "credit_entry_recorded", actor, ReasonName(entry.reason))
    case ProposalCreated(p, at) => (at, "proposal_created", p.createdByMemberId, p.proposalId)
    case VoteCast(v) => (v.castAt, "vote_cast", v.memberId, v.proposalId)
  }

  function EventAfter(hash: Hash, events: seq<AuditEvent>, m: Mutation): AuditEvent {
    var (at, kind, actor, subject) := Entry(m);
    Append(hash, Last(events), at, Ascii(kind), actor, subject)
  }

  // ---------- histories ----------

  function Founded(founder: Member): Records {
    Records(map[founder.memberId := founder], map[], map[], map[], map[], map[], map[], [], map[])
  }

  function Replayed(founder: Member, history: seq<Mutation>): Records {
    if |history| == 0 then Founded(founder)
    else Apply(Replayed(founder, history[..|history| - 1]), history[|history| - 1])
  }

  /** One event for the founding and one for each mutation. */
  function EventsOf(env: Setting, founder: Member, history: seq<Mutation>): (events: seq<AuditEvent>)
    ensures |events| == |history| + 1
  {
    if |history| == 0 then
      [Append(env.hash, None, env.community.createdAt, Ascii("community_created"), founder.memberId, env.community.communityId)]
    else
      var events := EventsOf(env, founder, history[..|history| - 1]);
      events + [EventAfter(env.hash, events, history[|history| - 1])]
  }

  /** Every mutation was decided upon, in the records it found. */
  ghost predicate Legal(env: Setting, founder: Member, history: seq<Mutation>) {
    if |history| == 0 then true
    else
      var front := history[..|history| - 1];
      Legal(env, founder, front) && Decide(env, Replayed(founder, front), history[|history| - 1]).Ok?
  }

  predicate Tells(e: AuditEvent, at: I64, kind: string, actor: Bytes, subject: Bytes) {
    e.occurredAt == at && e.kind == Ascii(kind) && e.actorId == actor && e.subjectId == subject
  }

  /** The event says when a mutation happened, its kind, its actor and its subject. */
  predicate Names(e: AuditEvent, m: Mutation) {
    match m
    case MemberAdded(member, at) => Tells(e, at, "membership_approved", member.memberId, member.memberId)
    case NodeRegistered(actor, node, at) => Tells(e, at, "node_registered", actor, node.nodeId)
    case ObjectRegistered(actor, obj, at) => Tells(e, at, "object_registered", actor, obj.objectCid)
    case PlacementAdded(actor, p, at) => Tells(e, at, "placement_created", actor, p.placementId)
    case PointerUpdated(actor, p) => Tells(e, p.signedAt, "catalog_pointer_updated", actor, p.vaultId)
    case CreditRecorded(actor, entry) =>
      Tells(e, entry.occurredAt, "credit_entry_recorded", actor,
            Ascii(match entry.reason
                  case MonthlyBaseGrant => "MonthlyBaseGrant"
                  case AuditedStorageEarned => "AuditedStorageEarned"
                  case ReplicatedStorageConsumed => "ReplicatedStorageConsumed"
                  case Expired => "Expired"))
    case ProposalCreated(p, at) => Tells(e, at, "proposal_created", p.createdByMemberId, p.proposalId)
    case VoteCast(v) => Tells(e, v.castAt, "vote_cast", v.memberId, v.proposalId)
  }

  /** The audit chain of any history verifies, and names each mutation in order. */
  lemma {:induction false} EventsVerify(env: Setting, founder: Member, history: seq<Mutation>)
    ensures ChainOk(env.hash, EventsOf(env, founder, history))
    ensures forall i :: 0 <= i < |history| ==> Names(EventsOf(env, founder, history)[i + 1], history[i])
    ensures Tells(EventsOf(env, founder, history)[0], env.community.createdAt, "community_created", founder.memberId, env.community.communityId)
    decreases |history|
  {
    hide ChainOk, Names, EventHash, EventAfter, Ascii;
    if |history| == 0 {
      AppendKeepsChain(env.hash, [], env.community.createdAt, Ascii("community_created"), founder.memberId, env.community.communityId);
      NothingVerifies(env.hash);
      assert [] + EventsOf(env, founder, history) == EventsOf(env, founder, history);
    } else {
      var front, m := history[..|history| - 1], history[|history| - 1];
      var events := EventsOf(env, founder, front);
      EventsVerify(env, founder, front);
      EventVerifies(env.hash, events, m);
      assert forall i :: 0 <= i < |front| ==> front[i] == history[i] && EventsOf(env, founder, history)[i + 1] == events[i + 1];
    }
  }

  lemma {:induction false} EventVerifies(hash: Hash, events: seq<AuditEvent>, m: Mutation)
    requires ChainOk(hash, events)
    ensures ChainOk(hash, events + [EventAfter(hash, events, m)])
    ensures Names(EventAfter(hash, events, m), m)
  {
    hide ChainOk, EventHash, Ascii;
    var (at, kind, actor, subject) := Entry(m);
    AppendKeepsChain(hash, events, at, Ascii(kind), actor, subject);
  }

  lemma {:induction false} NothingVerifies(hash: Hash)
    ensures ChainOk(hash, [])
  {
  }

  // ---------- what a history puts on record ----------

  /** What a mutation names is on record. */
  predicate OnRecord(s: Records, m: Mutation) {
    match m
    case MemberAdded(member, _) => member.memberId in s.members && s.members[member.memberId] == member
    case NodeRegistered(_, node, _) => node.nodeId in s.nodes && s.nodes[node.nodeId] == node
    case ObjectRegistered(_, obj, _) => obj.objectCid in s.objects && s.objects[obj.objectCid] == obj
    case PlacementAdded(_, p, _) => p.placementId in s.placements && s.placements[p.placementId] == p
    case PointerUpdated(_, p) =>
      && p.vaultId in s.pointers && s.pointers[p.vaultId].version >= p.version
      && (s.pointers[p.vaultId].version == p.version ==> s.pointers[p.vaultId] == p)
    case CreditRecorded(actor, entry) => actor in s.credits && entry in s.credits[actor]
    case ProposalCreated(p, _) => p.proposalId in s.proposals && s.proposals[p.proposalId] == p
    case VoteCast(v) =>
      (v.proposalId, v.memberId) in s.votes && s.votes[(v.proposalId, v.memberId)] == v && v in s.voteHistory
  }

  /** Who signed, who acted, and what of it had to be there, at the time and ever since. */
  predicate Warranted(env: Setting, s: Records, m: Mutation) {
    match m
    case MemberAdded(member, at) =>
      && IssuedBy(env.hash, member.credential, env.community.communityId, env.community.rootPublicKey, at, 300)
      && member.publicKey == member.credential.claims.memberPublicKey && member.memberId == member.credential.claims.memberId
    case NodeRegistered(actor, node, _) => IsActive(s, actor) && node.ownerMemberId == actor && node.maxStorageBytes > 0
    case ObjectRegistered(actor, obj, _) => IsActive(s, actor) && IsCidText(obj.objectCid) && obj.ciphertextSize > 0
    case PlacementAdded(actor, p, _) => IsActive(s, actor) && p.objectCid in s.objects && p.nodeId in s.nodes
    case PointerUpdated(actor, p) =>
      IsActive(s, actor) &&
      p.ownerSignature == Signature(PublicKey(s.members[actor].credential.claims.memberPublicKey),
        Joined([ Ascii("acm.catalog-pointer.v1"), p.vaultId, p.catalogCid, Decimal(p.version),
                 if p.previousCid.Some? then p.previousCid.value else [], Decimal(p.signedAt) ]))
    case CreditRecorded(actor, entry) => IsActive(s, actor)
    case ProposalCreated(p, _) =>
      IsActive(s, p.createdByMemberId) && p.opensAt < p.closesAt && p.quorumPercent <= 100 && p.thresholdPercent <= 100
    case VoteCast(v) =>
      && IsActive(s, v.memberId) && v.proposalId in s.proposals
      && s.proposals[v.proposalId].opensAt <= v.castAt <= s.proposals[v.proposalId].closesAt
      && v.memberSignature == Signature(PublicKey(s.members[v.memberId].credential.claims.memberPublicKey),
           Joined([ Ascii("acm.vote.v1"), v.proposalId, v.memberId,
                    Ascii(match v.choice case Yes => "Yes" case No => "No" case Abstain => "Abstain"), Decimal(v.castAt) ]))
  }

  /** Nothing on record stands in its way. */
  predicate Unopposed(s: Records, m: Mutation) {
    match m
    case MemberAdded(member, _) => member.memberId !in s.members
    case NodeRegistered(_, node, _) => node.nodeId !in s.nodes
    case ObjectRegistered(_, obj, _) => obj.objectCid !in s.objects
    case PlacementAdded(_, p, _) =>
      && p.placementId !in s.placements
      && forall id :: id in s.placements && s.placements[id].objectCid == p.objectCid && s.placements[id].nodeId == p.nodeId ==>
           s.placements[id].status != "healthy"
    case PointerUpdated(_, p) =>
      if p.vaultId in s.pointers
      then p.version == s.pointers[p.vaultId].version + 1 && p.previousCid == Some(s.pointers[p.vaultId].catalogCid)
      else p.version == 1 && p.previousCid == None
    case CreditRecorded(actor, entry) => Refusal(if actor in s.credits then s.credits[actor] else [], entry).None?
    case ProposalCreated(p, _) => p.proposalId !in s.proposals
    case VoteCast(v) => (v.proposalId, v.memberId) !in s.votes
  }

  /** A mutation is allowed exactly when it is warranted and unopposed. */
  lemma {:induction false} AllowedIff(env: Setting, s: Records, m: Mutation)
    ensures Decide(env, s, m).Ok? <==> Warranted(env, s, m) && Unopposed(s, m)
  {
    hide Refusal, IsCidText, Joined, Decimal, Ascii, VerifyTrusted, IssuedBy;
    if m.MemberAdded? {
      TrustedIff(env.hash, m.member.credential, env.community.communityId, env.community.rootPublicKey, m.at, 300);
    }
  }

  /** Who acts, where someone must be an active member. */
  function Actor(m: Mutation): Option<Bytes> {
    match m
    case MemberAdded(_, _) => None
    case NodeRegistered(actor, _, _) => Some(actor)
    case ObjectRegistered(actor, _, _) => Some(actor)
    case PlacementAdded(actor, _, _) => Some(actor)
    case PointerUpdated(actor, _) => Some(actor)
    case CreditRecorded(actor, _) => Some(actor)
    case ProposalCreated(p, _) => Some(p.createdByMemberId)
    case VoteCast(v) => Some(v.memberId)
  }

  /** What a refusal says. */
  lemma {:induction false} RefusedAs(env: Setting, s: Records, m: Mutation)
    requires Decide(env, s, m).Err?
    ensures Decide(env, s, m).error == Unauthorized <==> Actor(m).Some? && !IsActive(s, Actor(m).value)
    ensures Decide(env, s, m).error == NotFound <==> m.VoteCast? && IsActive(s, m.vote.memberId) && m.vote.proposalId !in s.proposals
    ensures m.MemberAdded? ==>
              Decide(env, s, m).error ==
              if IssuedBy(env.hash, m.member.credential, env.community.communityId, env.community.rootPublicKey, m.at, 300)
              then Conflict else InvalidSignature
    ensures m.PointerUpdated? && IsActive(s, m.actor) ==> Decide(env, s, m).error == if Warranted(env, s, m) then State else InvalidSignature
    ensures m.VoteCast? && IsActive(s, m.vote.memberId) && m.vote.proposalId in s.proposals ==>
              Decide(env, s, m).error ==
              if Warranted(env, s, m) || !(s.proposals[m.vote.proposalId].opensAt <= m.vote.castAt <= s.proposals[m.vote.proposalId].closesAt)
              then State else InvalidSignature
    ensures m.CreditRecorded? && Warranted(env, s, m) ==> Decide(env, s, m).error.CreditRefused?
  {
    hide Refusal, IsCidText, Joined, Decimal, Ascii, VerifyTrusted, IssuedBy;
    if m.MemberAdded? {
      TrustedIff(env.hash, m.member.credential, env.community.communityId, env.community.rootPublicKey, m.at, 300);
    }
  }

  lemma {:induction false} StaysOnRecord(env: Setting, s: Records, m: Mutation, past: Mutation)
    requires Decide(env, s, m).Ok? && OnRecord(s, past)
    ensures OnRecord(Apply(s, m), past)
  {
    hide Refusal, IsCidText, VerifyTrusted, MemberSigned, HasHealthy, VoteBytes, PointerBytes;
  }

  lemma {:induction false} StaysWarranted(env: Setting, s: Records, m: Mutation, past: Mutation)
    requires Decide(env, s, m).Ok? && Warranted(env, s, past)
    ensures Warranted(env, Apply(s, m), past)
  {
    hide Refusal, IsCidText, Joined, Decimal, Ascii, VerifyTrusted, IssuedBy, MemberSigned, HasHealthy, VoteBytes, PointerBytes;
  }

  lemma {:induction false} GoesOnRecord(env: Setting, s: Records, m: Mutation)
    requires Decide(env, s, m).Ok?
    ensures OnRecord(Apply(s, m), m) && Warranted(env, Apply(s, m), m)
  {
    hide Refusal, IsCidText, Joined, Decimal, Ascii, VerifyTrusted, IssuedBy, HasHealthy, Decide;
    AllowedIff(env, s, m);
  }

  /** The votes of a history, oldest first. */
  function VotesIn(history: seq<Mutation>): seq<Vote> {
    if |history| == 0 then []
    else
      var m := history[|history| - 1];
      VotesIn(history[..|history| - 1]) + if m.VoteCast? then [m.vote] else []
  }

  /** The entries of a history in one member's ledger, oldest first. */
  function EntriesIn(history: seq<Mutation>, memberId: Bytes): seq<CreditEntry> {
    if |history| == 0 then []
    else
      var m := history[|history| - 1];
      EntriesIn(history[..|history| - 1], memberId) + if m.CreditRecorded? && m.actor == memberId then [m.entry] else []
  }

  /** Whatever a legal history did is on record and still warranted. */
  lemma {:induction false} HistoryOnRecord(env: Setting, founder: Member, history: seq<Mutation>, i: nat)
    requires Legal(env, founder, history) && i < |history|
    ensures OnRecord(Replayed(founder, history), history[i]) && Warranted(env, Replayed(founder, history), history[i])
    decreases |history|
  {
    hide Decide, Apply, OnRecord, Warranted;
    var front, m := history[..|history| - 1], history[|history| - 1];
    if i < |front| {
      HistoryOnRecord(env, founder, front, i);
      StaysOnRecord(env, Replayed(founder, front), m, history[i]);
      StaysWarranted(env, Replayed(founder, front), m, history[i]);
    } else {
      GoesOnRecord(env, Replayed(founder, front), m);
    }
  }

  /** The votes on record are those cast, in order, and each ledger holds just the entries made in it. */
  lemma {:induction false} HistoryIsRecord(founder: Member, history: seq<Mutation>)
    ensures Replayed(founder, history).voteHistory == VotesIn(history)
    ensures forall id :: Ledger(Replayed(founder, history).credits, id) == EntriesIn(history, id)
    decreases |history|
  {
    hide Apply;
    if |history| > 0 {
      var front := history[..|history| - 1];
      HistoryIsRecord(founder, front);
      OneOnRecord(Replayed(founder, front), history[|history| - 1]);
    }
  }

  lemma {:induction false} OneOnRecord(s: Records, m: Mutation)
    ensures Apply(s, m).voteHistory == s.voteHistory + if m.VoteCast? then [m.vote] else []
    ensures forall id :: Ledger(Apply(s, m).credits, id) == Ledger(s.credits, id) +
                           if m.CreditRecorded? && m.actor == id then [m.entry] else []
  {
  }

  datatype Table = Members | Nodes | Objects | Placements | Proposals

  predicate Lists(s: Records, t: Table, id: Bytes) {
    match t
    case Members => id in s.members
    case Nodes => id in s.nodes
    case Objects => id in s.objects
    case Placements => id in s.placements
    case Proposals => id in s.proposals
  }

  predicate Brings(m: Mutation, t: Table, id: Bytes) {
    match t
    case Members => m.MemberAdded? && m.member.memberId == id
    case Nodes => m.NodeRegistered? && m.node.nodeId == id
    case Objects => m.ObjectRegistered? && m.object_.objectCid == id
    case Placements => m.PlacementAdded? && m.placement.placementId == id
    case Proposals => m.ProposalCreated? && m.proposal.proposalId == id
  }

  /** A table lists what the history brought into it and, of members, the founder; nothing else. */
  lemma {:induction false} ListedIff(founder: Member, history: seq<Mutation>, t: Table, id: Bytes)
    ensures Lists(Replayed(founder, history), t, id) <==>
              (t == Members && id == founder.memberId) || exists i :: 0 <= i < |history| && Brings(history[i], t, id)
    decreases |history|
  {
    hide Brings;
    if |history| > 0 {
      var front, m := history[..|history| - 1], history[|history| - 1];
      ListedIff(founder, front, t, id);
      BroughtNow(Replayed(founder, front), m, t, id);
      assert forall i :: 0 <= i < |front| ==> front[i] == history[i];
    }
  }

  lemma {:induction false} BroughtNow(s: Records, m: Mutation, t: Table, id: Bytes)
    ensures Lists(Apply(s, m), t, id) <==> Lists(s, t, id) || Brings(m, t, id)
  {
  }

  // ---------- votes ----------

  /** A vote stands: on a proposal, inside its window, by an active member who signed it. */
  ghost predicate VoteStands(s: Records, v: Vote) {
    && v.proposalId in s.proposals
    && s.proposals[v.proposalId].opensAt <= v.castAt <= s.proposals[v.proposalId].closesAt
    && IsActive(s, v.memberId)
    && MemberSigned(s.members[v.memberId].credential, VoteBytes(v), v.memberSignature)
  }

  /** The vote map and the vote history hold the same votes, once each. */
  predicate Mirrors(votes: map<VoteKey, Vote>, voteHistory: seq<Vote>) {
    && |voteHistory| == |votes|
    && (forall k :: k in votes ==> KeyOf(votes[k]) == k && votes[k] in voteHistory)
    && (forall i :: 0 <= i < |voteHistory| ==> KeyOf(voteHistory[i]) in votes && votes[KeyOf(voteHistory[i])] == voteHistory[i])
    && (forall i, j :: 0 <= i < j < |voteHistory| ==> KeyOf(voteHistory[i]) != KeyOf(voteHistory[j]))
  }

  ghost predicate VotesStand(s: Records) {
    forall k :: k in s.votes ==> VoteStands(s, s.votes[k])
  }

  /** In every legal history the two vote records agree and every vote stands. */
  lemma {:induction false} HistoryKeepsVotes(env: Setting, founder: Member, history: seq<Mutation>)
    requires Legal(env, founder, history)
    ensures Mirrors(Replayed(founder, history).votes, Replayed(founder, history).voteHistory)
    ensures VotesStand(Replayed(founder, history))
    decreases |history|
  {
    hide VotesStand, Mirrors, Decide, Apply;
    if |history| == 0 {
      FoundedVotes(founder);
    } else {
      var front, m := history[..|history| - 1], history[|history| - 1];
      HistoryKeepsVotes(env, founder, front);
      StepMirrors(env, Replayed(founder, front), m);
      StepStands(env, Replayed(founder, front), m);
    }
  }

  lemma {:induction false} FoundedVotes(founder: Member)
    ensures Mirrors(Founded(founder).votes, Founded(founder).voteHistory) && VotesStand(Founded(founder))
  {
  }

  lemma {:induction false} MirrorsGrows(votes: map<VoteKey, Vote>, voteHistory: seq<Vote>, v: Vote)
    requires Mirrors(votes, voteHistory) && KeyOf(v) !in votes
    ensures Mirrors(votes[KeyOf(v) := v], voteHistory + [v])
  {
    var longer := voteHistory + [v];
    assert longer[|voteHistory|] == v;
  }

  lemma {:induction false} StepMirrors(env: Setting, s: Records, m: Mutation)
    requires Mirrors(s.votes, s.voteHistory) && Decide(env, s, m).Ok?
    ensures Mirrors(Apply(s, m).votes, Apply(s, m).voteHistory)
  {
    hide Mirrors, VoteBytes, PointerBytes, VerifyTrusted, Refusal, IsCidText, HasHealthy, Succeeds;
    if m.VoteCast? {
      MirrorsGrows(s.votes, s.voteHistory, m.vote);
    }
  }

  lemma {:induction false} StandsAfter(env: Setting, s: Records, m: Mutation, v: Vote)
    requires Decide(env, s, m).Ok? && VoteStands(s, v)
    ensures VoteStands(Apply(s, m), v)
  {
    hide VoteBytes, PointerBytes, VerifyTrusted, Refusal, IsCidText, HasHealthy, Succeeds;
  }

  lemma {:induction false} StepStands(env: Setting, s: Records, m: Mutation)
    requires VotesStand(s) && Decide(env, s, m).Ok?
    ensures VotesStand(Apply(s, m))
  {
    hide VoteStands, MemberSigned, VoteBytes, PointerBytes, VerifyTrusted, Refusal, IsCidText, HasHealthy, Succeeds;
    forall k | k in Apply(s, m).votes ensures VoteStands(Apply(s, m), Apply(s, m).votes[k]) {
      if k in s.votes && Apply(s, m).votes[k] == s.votes[k] {
        StandsAfter(env, s, m, s.votes[k]);
      } else {
        CastStands(env, s, m);
      }
    }
  }

  lemma {:induction false} CastStands(env: Setting, s: Records, m: Mutation)
    requires m.VoteCast? && Decide(env, s, m).Ok?
    ensures VoteStands(Apply(s, m), m.vote)
  {
    hide VoteBytes, VerifyTrusted, IsCidText;
  }

  predicate Extends(votes: map<VoteKey, Vote>, later: map<VoteKey, Vote>) {
    forall k :: k in votes ==> k in later && later[k] == votes[k]
  }

  lemma {:induction false} StepExtends(env: Setting, s: Records, m: Mutation)
    requires Decide(env, s, m).Ok?
    ensures Extends(s.votes, Apply(s, m).votes)
  {
    hide VoteBytes, PointerBytes, VerifyTrusted, Refusal, IsCidText, HasHealthy, Succeeds, MemberSigned;
  }

  /** A vote once cast is never changed: later records hold every earlier vote. */
  lemma {:induction false} VotesAreFinal(env: Setting, founder: Member, history: seq<Mutation>, n: nat)
    requires Legal(env, founder, history) && n <= |history|
    ensures Extends(Replayed(founder, history[..n]).votes, Replayed(founder, history).votes)
    decreases |history|
  {
    hide Decide, Apply;
    if n < |history| {
      var front := history[..|history| - 1];
      VotesAreFinal(env, founder, front, n);
      StepExtends(env, Replayed(founder, front), history[|history| - 1]);
      assert front[..n] == history[..n];
    } else {
      assert history[..n] == history;
    }
  }

  // ---------- tallies ----------

  ghost function Ballots(votes: map<VoteKey, Vote>, proposalId: Bytes, choice: VoteChoice): set<VoteKey> {
    set k | k in votes && votes[k].proposalId == proposalId && votes[k].choice == choice
  }

  ghost function ActiveMembers(members: map<Bytes, Member>): set<Bytes> {
    set id | id in members && members[id].status == "active"
  }

  lemma {:induction false} OneVoteEach(keys: set<VoteKey>, proposalId: Bytes, voters: set<Bytes>)
    requires forall k :: k in keys ==> k.0 == proposalId && k.1 in voters
    ensures |keys| <= |voters|
  {
    if keys != {} {
      var k :| k in keys;
      forall j | j in keys - {k} ensures j.1 in voters - {k.1} {
        assert j.0 == k.0;
      }
      OneVoteEach(keys - {k}, proposalId, voters - {k.1});
    }
  }

  /** In every legal history the votes of a proposal number at most the active members. */
  lemma {:induction false} TallyBounded(env: Setting, founder: Member, history: seq<Mutation>, proposalId: Bytes)
    requires Legal(env, founder, history)
    ensures var s := Replayed(founder, history);
            |Ballots(s.votes, proposalId, Yes)| + |Ballots(s.votes, proposalId, No)| + |Ballots(s.votes, proposalId, Abstain)|
            <= |ActiveMembers(s.members)|
  {
    HistoryKeepsVotes(env, founder, history);
    var s := Replayed(founder, history);
    BallotsBounded(s, proposalId);
  }

  lemma {:induction false} MirrorsKeys(votes: map<VoteKey, Vote>, voteHistory: seq<Vote>)
    requires Mirrors(votes, voteHistory)
    ensures forall k :: k in votes ==> KeyOf(votes[k]) == k
  {
  }

  lemma {:induction false} BallotsBounded(s: Records, proposalId: Bytes)
    requires Mirrors(s.votes, s.voteHistory) && VotesStand(s)
    ensures |Ballots(s.votes, proposalId, Yes)| + |Ballots(s.votes, proposalId, No)| + |Ballots(s.votes, proposalId, Abstain)|
         <= |ActiveMembers(s.members)|
  {
    hide VoteBytes, MemberSigned, Mirrors;
    MirrorsKeys(s.votes, s.voteHistory);
    var yes, no, abstain := Ballots(s.votes, proposalId, Yes), Ballots(s.votes, proposalId, No), Ballots(s.votes, proposalId, Abstain);
    forall k: VoteKey | k in yes + no + abstain ensures k.0 == proposalId && k.1 in ActiveMembers(s.members) {
      assert VoteStands(s, s.votes[k]) && KeyOf(s.votes[k]) == k;
    }
    OneVoteEach(yes + no + abstain, proposalId, ActiveMembers(s.members));
    assert |yes + no| == |yes| + |no|;
    assert |yes + no + abstain| == |yes + no| + |abstain|;
  }

  // ---------- placements ----------

  /** Two healthy placements of one object are on different nodes. */
  predicate OneHealthyEach(placements: map<Bytes, Placement>) {
    forall a, b :: a in placements && b in placements && a != b && placements[a].status == placements[b].status == "healthy" ==>
                     placements[a].objectCid != placements[b].objectCid || placements[a].nodeId != placements[b].nodeId
  }

  /** In every legal history each object has at most one healthy placement on a node. */
  lemma {:induction false} HistoryKeepsPlacements(env: Setting, founder: Member, history: seq<Mutation>)
    requires Legal(env, founder, history)
    ensures OneHealthyEach(Replayed(founder, history).placements)
    decreases |history|
  {
    hide Decide, Apply;
    if |history| > 0 {
      HistoryKeepsPlacements(env, founder, history[..|history| - 1]);
      StepKeepsPlacements(env, Replayed(founder, history[..|history| - 1]), history[|history| - 1]);
    }
  }

  lemma {:induction false} StepKeepsPlacements(env: Setting, s: Records, m: Mutation)
    requires OneHealthyEach(s.placements) && Decide(env, s, m).Ok?
    ensures OneHealthyEach(Apply(s, m).placements)
  {
    hide VoteBytes, PointerBytes, VerifyTrusted, Refusal, IsCidText, Succeeds, MemberSigned;
  }

  // ---------- catalog pointers ----------

  /** The pointers a history stored for one vault, oldest first. */
  function PointersFor(history: seq<Mutation>, vaultId: Bytes): seq<CatalogPointer> {
    if |history| == 0 then []
    else
      var m := history[|history| - 1];
      PointersFor(history[..|history| - 1], vaultId)
      + if m.PointerUpdated? && m.pointer.vaultId == vaultId then [m.pointer] else []
  }

  /** Versions 1, 2, 3, ..., each naming the catalog of the one before. */
  predicate PointerChain(pointers: seq<CatalogPointer>) {
    forall i :: 0 <= i < |pointers| ==> PointerFits(pointers, i)
  }

  predicate PointerFits(pointers: seq<CatalogPointer>, i: nat)
    requires i < |pointers|
  {
    && pointers[i].version == i + 1
    && pointers[i].previousCid == if i == 0 then None else Some(pointers[i - 1].catalogCid)
  }

  /** In every legal history a vault's pointers form one chain, and the stored one is its last. */
  lemma {:induction false} HistoryKeepsPointers(env: Setting, founder: Member, history: seq<Mutation>, vaultId: Bytes)
    requires Legal(env, founder, history)
    ensures PointerChain(PointersFor(history, vaultId))
    ensures var s, chain := Replayed(founder, history), PointersFor(history, vaultId);
            && (vaultId in s.pointers <==> chain != [])
            && (chain != [] ==> s.pointers[vaultId] == chain[|chain| - 1])
    decreases |history|
  {
    hide Decide, Apply, PointerChain;
    if |history| > 0 {
      var front, m := history[..|history| - 1], history[|history| - 1];
      HistoryKeepsPointers(env, founder, front, vaultId);
      StepPointers(env, Replayed(founder, front), m, vaultId);
      var chain := PointersFor(front, vaultId);
      LastVersion(chain);
      if m.PointerUpdated? && m.pointer.vaultId == vaultId {
        ChainGrows(chain, m.pointer);
      } else {
        assert PointersFor(history, vaultId) == chain;
      }
    } else {
      NoPointers();
    }
  }

  lemma {:induction false} LastVersion(chain: seq<CatalogPointer>)
    requires PointerChain(chain)
    ensures chain != [] ==> chain[|chain| - 1].version == |chain|
  {
    if chain != [] {
      assert PointerFits(chain, |chain| - 1);
    }
  }

  lemma {:induction false} NoPointers()
    ensures PointerChain([])
  {
  }

  lemma {:induction false} ChainGrows(chain: seq<CatalogPointer>, p: CatalogPointer)
    requires PointerChain(chain) && p.version == |chain| + 1
    requires p.previousCid == if chain == [] then None else Some(chain[|chain| - 1].catalogCid)
    ensures PointerChain(chain + [p])
  {
    forall i | 0 <= i <= |chain| ensures PointerFits(chain + [p], i) {
      if i < |chain| {
        assert PointerFits(chain, i);
      }
    }
  }

  /** A step leaves a vault's pointer alone, or replaces it by its successor. */
  lemma {:induction false} StepPointers(env: Setting, s: Records, m: Mutation, vaultId: Bytes)
    requires Decide(env, s, m).Ok?
    ensures if m.PointerUpdated? && m.pointer.vaultId == vaultId
            then Succeeds(s.pointers, m.pointer) && Apply(s, m).pointers == s.pointers[vaultId := m.pointer]
            else (vaultId in Apply(s, m).pointers <==> vaultId in s.pointers)
                 && (vaultId in s.pointers ==> Apply(s, m).pointers[vaultId] == s.pointers[vaultId])
  {
    hide VoteBytes, PointerBytes, VerifyTrusted, Refusal, IsCidText, HasHealthy, MemberSigned;
  }

  /** The pointer that continues a vault's chain, signed by any member. */
  function Continuation(s: Records, actor: Bytes, vaultId: Bytes, catalogCid: Bytes, signedAt: I64): CatalogPointer
    requires actor in s.members && (vaultId in s.pointers ==> s.pointers[vaultId].version < U64_MAX)
  {
    var key := PublicKey(s.members[actor].credential.claims.memberPublicKey);
    var p := if vaultId in s.pointers
             then CatalogPointer(vaultId, catalogCid, s.pointers[vaultId].version + 1, Some(s.pointers[vaultId].catalogCid),
                                 signedAt, Signature(key, []))
             else CatalogPointer(vaultId, catalogCid, 1, None, signedAt, Signature(key, []));
    p.(ownerSignature := Signature(key, PointerBytes(p)))
  }

  /**
    A pointer names no owner, so being active is all that a member needs to continue the chain of
    any vault, whoever stored the pointers before.
   */
  lemma {:induction false} AnyMemberContinuesIff(env: Setting, s: Records, actor: Bytes, vaultId: Bytes)
    requires vaultId in s.pointers ==> s.pointers[vaultId].version < U64_MAX
    ensures (exists p: CatalogPointer :: p.vaultId == vaultId && Decide(env, s, PointerUpdated(actor, p)).Ok?) <==> IsActive(s, actor)
    ensures IsActive(s, actor) ==>
              forall cid, at :: var p := Continuation(s, actor, vaultId, cid, at);
                && Decide(env, s, PointerUpdated(actor, p)).Ok?
                && Apply(s, PointerUpdated(actor, p)).pointers == s.pointers[vaultId := p]
  {
    hide PointerBytes, VerifyTrusted;
    if IsActive(s, actor) {
      forall cid, at ensures Decide(env, s, PointerUpdated(actor, Continuation(s, actor, vaultId, cid, at))).Ok? {
        SameSignedBytes(Continuation(s, actor, vaultId, cid, at));
      }
      var p := Continuation(s, actor, vaultId, [], 0);
      assert p.vaultId == vaultId && Decide(env, s, PointerUpdated(actor, p)).Ok?;
    }
  }

  /** The signed bytes leave the signature out. */
  lemma {:induction false} SameSignedBytes(p: CatalogPointer)
    ensures forall signature :: PointerBytes(p.(ownerSignature := signature)) == PointerBytes(p)
  {
    hide Joined, Ascii, Decimal;
  }

  // ---------- credits ----------

  /** In every legal history each ledger's keys are unique. */
  lemma {:induction false} HistoryKeepsLedgers(env: Setting, founder: Member, history: seq<Mutation>, memberId: Bytes)
    requires Legal(env, founder, history)
    ensures KeysUnique(Ledger(Replayed(founder, history).credits, memberId))
    decreases |history|
  {
    hide Decide, Apply, KeysUnique;
    if |history| > 0 {
      var front, m := history[..|history| - 1], history[|history| - 1];
      HistoryKeepsLedgers(env, founder, front, memberId);
      StepKeepsLedger(env, Replayed(founder, front), m, memberId);
    } else {
      NoKeys();
    }
  }

  lemma {:induction false} NoKeys()
    ensures KeysUnique([])
  {
  }

  lemma {:induction false} StepKeepsLedger(env: Setting, s: Records, m: Mutation, memberId: Bytes)
    requires KeysUnique(Ledger(s.credits, memberId)) && Decide(env, s, m).Ok?
    ensures KeysUnique(Ledger(Apply(s, m).credits, memberId))
  {
    hide VoteBytes, PointerBytes, VerifyTrusted, IsCidText, HasHealthy, MemberSigned, Succeeds, Balance;
  }

  // ---------- challenges ----------

  datatype Challenge = Challenge(expiresAt: I64, consumed: bool)

  datatype Gate = Gate(challenges: map<Bytes, Challenge>, nonces: set<Bytes>)

  datatype GateCall = Issue(value: Bytes, now: I64) | Consume(challenge: Bytes, nonce: Bytes, now: I64)

  predicate Opens(g: Gate, challenge: Bytes, nonce: Bytes, now: I64) {
    && |nonce| >= 16 && nonce !in g.nonces
    && challenge in g.challenges && !g.challenges[challenge].consumed && g.challenges[challenge].expiresAt >= now
  }

  /** A long enough nonce is used up by the call, whether or not the call succeeds. */
  function AfterCall(g: Gate, c: GateCall): Gate {
    match c
    case Issue(value, now) => g.(challenges := g.challenges[value := Challenge(WrapI64(now + 300), false)])
    case Consume(challenge, nonce, now) =>
      Gate(
        if Opens(g, challenge, nonce, now) then g.challenges[challenge := g.challenges[challenge].(consumed := true)] else g.challenges,
        if |nonce| >= 16 then g.nonces + {nonce} else g.nonces)
  }

  function AfterCalls(g: Gate, calls: seq<GateCall>): Gate {
    if |calls| == 0 then g else AfterCall(AfterCalls(g, calls[..|calls| - 1]), calls[|calls| - 1])
  }

  /** Neither a nonce nor a challenge opens the gate after a call with it, failed or not, unless the challenge is issued again. */
  lemma {:induction false} OpensOnce(g: Gate, first: GateCall, calls: seq<GateCall>, later: GateCall)
    requires first.Consume? && later.Consume?
    requires later.nonce == first.nonce
          || (later.challenge == first.challenge && Opens(g, first.challenge, first.nonce, first.now)
              && forall c :: c in calls && c.Issue? ==> c.value != first.challenge)
    ensures !Opens(AfterCalls(AfterCall(g, first), calls), later.challenge, later.nonce, later.now)
  {
    if later.nonce == first.nonce && |first.nonce| >= 16 {
      NonceStays(AfterCall(g, first), calls, first.nonce);
    } else if later.nonce != first.nonce {
      ConsumedStays(AfterCall(g, first), calls, first.challenge);
    }
  }

  /** A challenge just issued opens for five minutes, to any unused nonce of sixteen bytes or more. */
  lemma {:induction false} IssuedOpensIff(g: Gate, value: Bytes, at: I64, nonce: Bytes, now: I64)
    ensures Opens(AfterCall(g, Issue(value, at)), value, nonce, now) <==>
              |nonce| >= 16 && nonce !in g.nonces && now <= WrapI64(at + 300)
  {
  }

  lemma {:induction false} NonceStays(g: Gate, calls: seq<GateCall>, nonce: Bytes)
    requires nonce in g.nonces
    ensures nonce in AfterCalls(g, calls).nonces
    decreases |calls|
  {
    if |calls| > 0 {
      NonceStays(g, calls[..|calls| - 1], nonce);
    }
  }

  lemma {:induction false} ConsumedStays(g: Gate, calls: seq<GateCall>, challenge: Bytes)
    requires challenge in g.challenges && g.challenges[challenge].consumed
    requires forall c :: c in calls && c.Issue? ==> c.value != challenge
    ensures var h := AfterCalls(g, calls); challenge in h.challenges && h.challenges[challenge].consumed
    decreases |calls|
  {
    if |calls| > 0 {
      ConsumedStays(g, calls[..|calls| - 1], challenge);
      assert calls[|calls| - 1] in calls;
    }
  }

  // ---------- snapshots ----------

  datatype CommunitySnapshot = CommunitySnapshot(
    formatVersion: U16,
    community: Community,
    members: map<Bytes, Member>,
    nodes: map<Bytes, NodeRecord>,
    catalogPointers: map<Bytes, CatalogPointer>,
    auditEvents: seq<AuditEvent>,
    auditRoot: Bytes,
    snapshotHash: Bytes)

  /** Serialises a snapshot. */
  type Json = CommunitySnapshot -> Bytes

  function SnapshotHash(hash: Hash, json: Json, s: CommunitySnapshot): Bytes {
    Hex(hash(json(s.(snapshotHash := []))))
  }

  function VerifySnapshot(hash: Hash, json: Json, s: CommunitySnapshot): Result<CommunitySnapshot, ControlError> {
    if s.formatVersion != 1 || !ChainOk(hash, s.auditEvents) || s.auditRoot != AuditRoot(hash, s.auditEvents) then Err(Snapshot)
    else if s.snapshotHash != SnapshotHash(hash, json, s) then Err(Snapshot)
    else Ok(s)
  }

  /** A snapshot verifies exactly when it is of version 1 and its chain, its root and its own hash are right. */
  lemma {:induction false} SnapshotVerifiesIff(hash: Hash, json: Json, s: CommunitySnapshot)
    ensures VerifySnapshot(hash, json, s).Ok? <==>
              && s.formatVersion == 1 && ChainOk(hash, s.auditEvents) && s.auditRoot == AuditRoot(hash, s.auditEvents)
              && s.snapshotHash == Hex(hash(json(s.(snapshotHash := []))))
    ensures VerifySnapshot(hash, json, s).Ok? ==> VerifySnapshot(hash, json, s).value == s
  {
    hide ChainOk, AuditRoot, Hex;
  }

  /** Serialisation tells these two snapshots apart if they differ, and so does the hash of it. */
  ghost predicate Faithful(hash: Hash, json: Json, a: CommunitySnapshot, b: CommunitySnapshot) {
    json(a) == json(b) || hash(json(a)) == hash(json(b)) ==> a == b
  }

  /** Two snapshots that verify are the same snapshot exactly when they carry the same hash. */
  lemma {:induction false} SnapshotHashBinds(hash: Hash, json: Json, a: CommunitySnapshot, b: CommunitySnapshot)
    requires VerifySnapshot(hash, json, a).Ok? && VerifySnapshot(hash, json, b).Ok?
    requires Faithful(hash, json, a.(snapshotHash := []), b.(snapshotHash := []))
    ensures a.snapshotHash == b.snapshotHash <==> a == b
  {
    hide ChainOk, AuditRoot;
    if a.snapshotHash == b.snapshotHash {
      HexInjective(hash(json(a.(snapshotHash := []))), hash(json(b.(snapshotHash := []))));
      assert a == a.(snapshotHash := []).(snapshotHash := a.snapshotHash);
      assert b == b.(snapshotHash := []).(snapshotHash := b.snapshotHash);
    }
  }

  // ---------- the control plane itself ----------

  /** The same records; a ledger that is missing counts as an empty one. */
  ghost predicate Agree(a: Records, b: Records) {
    a.(credits := b.credits) == b && forall id :: Ledger(a.credits, id) == Ledger(b.credits, id)
  }

  lemma {:induction false} AgreeDecides(env: Setting, a: Records, b: Records, m: Mutation)
    requires Agree(a, b)
    ensures Decide(env, a, m) == Decide(env, b, m)
    ensures Agree(Apply(a, m), Apply(b, m))
  {
    hide VoteBytes, PointerBytes, VerifyTrusted, Refusal, IsCidText, HasHealthy, Succeeds, MemberSigned, Ledger;
    if m.CreditRecorded? {
      LedgerGrows(a.credits, m.actor, m.entry);
      LedgerGrows(b.credits, m.actor, m.entry);
    }
  }

  lemma {:induction false} LedgerGrows(credits: map<Bytes, seq<CreditEntry>>, actor: Bytes, entry: CreditEntry)
    ensures var more := credits[actor := Ledger(credits, actor) + [entry]];
            forall id :: Ledger(more, id) == if id == actor then Ledger(credits, actor) + [entry] else Ledger(credits, id)
  {
  }

  /** Opening an empty ledger changes nothing the records say. */
  lemma {:induction false} OpenedLedgerAgrees(a: Records, b: Records, memberId: Bytes)
    requires Agree(a, b) && memberId !in a.credits
    ensures Agree(a.(credits := a.credits[memberId := []]), b)
  {
  }

  /** An entry in a ledger just opened leaves the records as one in a ledger there was not. */
  lemma {:induction false} OpenedDecides(before: Records, after: Records, memberId: Bytes, entry: CreditEntry)
    requires after == before.(credits := if memberId in before.credits then before.credits else before.credits[memberId := []])
    ensures after.credits[memberId] == Ledger(before.credits, memberId)
    ensures Agree(
              after.(credits := after.credits[memberId := after.credits[memberId] + [entry]]),
              Apply(before, CreditRecorded(memberId, entry)))
  {
  }

  lemma {:induction false} AgreeSame(a: Records, b: Records)
    requires a == b
    ensures Agree(a, b)
  {
  }

  lemma {:induction false} HistoryGrows(env: Setting, founder: Member, history: seq<Mutation>, m: Mutation)
    requires Legal(env, founder, history) && Decide(env, Replayed(founder, history), m).Ok?
    ensures Legal(env, founder, history + [m])
    ensures Replayed(founder, history + [m]) == Apply(Replayed(founder, history), m)
    ensures EventsOf(env, founder, history + [m])
         == EventsOf(env, founder, history) + [EventAfter(env.hash, EventsOf(env, founder, history), m)]
  {
    hide Decide, Apply, EventAfter;
    assert (history + [m])[..|history|] == history;
  }

  class LocalControlPlane {
    const env: Setting
    const founder: Member
    var members: map<Bytes, Member>
    var nodes: map<Bytes, NodeRecord>
    var objects: map<Bytes, ObjectRecord>
    var placements: map<Bytes, Placement>
    var catalogPointers: map<Bytes, CatalogPointer>
    var proposals: map<Bytes, Proposal>
    var votes: map<VoteKey, Vote>
    var voteHistory: seq<Vote>
    var challenges: map<Bytes, Challenge>
    var replayNonces: set<Bytes>
    var auditEvents: seq<AuditEvent>
    var credits: map<Bytes, seq<CreditEntry>>
    /** Every successful mutation since the founding. */
    ghost var history: seq<Mutation>

    function Now(): Records
      reads this
    {
      Records(members, nodes, objects, placements, catalogPointers, proposals, votes, voteHistory, credits)
    }

    /** Records and audit chain are what the history makes them, and every mutation in it was allowed. */
    ghost predicate Valid()
      reads this
    {
      && Legal(env, founder, history)
      && Agree(Now(), Replayed(founder, history))
      && auditEvents == EventsOf(env, founder, history)
    }

    constructor (env: Setting, founder: Member)
      ensures Valid() && history == [] && this.env == env && this.founder == founder
      ensures challenges == map[] && replayNonces == {}
    {
      this.env, this.founder, history := env, founder, [];
      members, nodes, objects, placements := map[founder.memberId := founder], map[], map[], map[];
      catalogPointers, proposals, votes, voteHistory := map[], map[], map[], [];
      challenges, replayNonces, credits := map[], {}, map[];
      auditEvents := [Append(env.hash, None, env.community.createdAt, Ascii("community_created"), founder.memberId, env.community.communityId)];
      new;
      hide Append, Ascii, Decide, Apply, Agree;
      AgreeSame(Now(), Founded(founder));
    }

    /** A community begins with a founder whose credential its root key signed. */
    static method Bootstrap(env: Setting, founder: Member) returns (r: Result<LocalControlPlane, ControlError>)
      ensures r.Ok? <==>
                && IssuedBy(env.hash, founder.credential, env.community.communityId, env.community.rootPublicKey, env.community.createdAt, 300)
                && founder.publicKey == founder.credential.claims.memberPublicKey
                && founder.memberId == founder.credential.claims.memberId
      ensures r.Err? ==> r.error == InvalidSignature
      ensures r.Ok? ==> fresh(r.value) && r.value.Valid() && r.value.history == [] && r.value.env == env && r.value.founder == founder
    {
      hide VerifyTrusted, IssuedBy;
      TrustedIff(env.hash, founder.credential, env.community.communityId, env.community.rootPublicKey, env.community.createdAt, 300);
      FromIssuer(env.hash, founder.credential, env.community.communityId, env.community.rootPublicKey, env.community.createdAt, 300);
      if !Trusted(env, founder, env.community.createdAt) {
        return Err(InvalidSignature);
      }
      if || founder.publicKey != founder.credential.claims.memberPublicKey
         || founder.memberId != founder.credential.claims.memberId
         || founder.credential.claims.issuerPublicKey != env.community.rootPublicKey
      {
        return Err(InvalidSignature);
      }
      var plane := new LocalControlPlane(env, founder);
      r := Ok(plane);
    }

    /** What a call made of the plane: decided as `Decide` says, and on record if it was allowed. */
    ghost predicate Took(before: Records, past: seq<Mutation>, m: Mutation, r: Result<(), ControlError>)
      reads this
    {
      r == Decide(env, before, m) && history == (if r.Ok? then past + [m] else past) && (r.Ok? ==> OnRecord(Now(), m))
    }

    method AppendAudit(at: I64, kind: string, actor: Bytes, subject: Bytes)
      modifies `auditEvents
      ensures auditEvents == old(auditEvents) + [Append(env.hash, Last(old(auditEvents)), at, Ascii(kind), actor, subject)]
    {
      auditEvents := auditEvents + [Append(env.hash, Last(auditEvents), at, Ascii(kind), actor, subject)];
    }

    ghost method Settle(before: Records, m: Mutation)
      requires Legal(env, founder, history) && Agree(before, Replayed(founder, history))
      requires Decide(env, before, m).Ok? && Agree(Now(), Apply(before, m))
      requires auditEvents == EventsOf(env, founder, history) + [EventAfter(env.hash, EventsOf(env, founder, history), m)]
      modifies `history
      ensures Valid() && history == old(history) + [m]
    {
      hide Decide, Apply, EventAfter, Legal;
      AgreeDecides(env, before, Replayed(founder, history), m);
      HistoryGrows(env, founder, history, m);
      history := history + [m];
    }

    method AddMember(member: Member, now: I64) returns (r: Result<(), ControlError>)
      requires Valid()
      modifies this
      ensures Valid() && Took(old(Now()), old(history), MemberAdded(member, now), r)
      ensures challenges == old(challenges) && replayNonces == old(replayNonces)
    {
      hide Legal, Replayed, Agree, EventsOf, Append, VerifyTrusted, Ascii;
      if !Trusted(env, member, now) {
        return Err(InvalidSignature);
      }
      if || member.publicKey != member.credential.claims.memberPublicKey
         || member.memberId != member.credential.claims.memberId
         || member.memberId in members
      {
        return Err(Conflict);
      }
      ghost var before := Now();
      AppendAudit(now, "membership_approved", member.memberId, member.memberId);
      members := members[member.memberId := member];
      AgreeSame(Now(), Apply(before, MemberAdded(member, now)));
      Settle(before, MemberAdded(member, now));
      r := Ok(());
    }

    method RegisterNode(actor: Bytes, node: NodeRecord, now: I64) returns (r: Result<(), ControlError>)
      requires Valid()
      modifies this
      ensures Valid() && Took(old(Now()), old(history), NodeRegistered(actor, node, now), r)
      ensures challenges == old(challenges) && replayNonces == old(replayNonces)
    {
      hide Legal, Replayed, Agree, EventsOf, Append, VerifyTrusted, Ascii;
      if !IsActive(Now(), actor) {
        return Err(Unauthorized);
      }
      if node.ownerMemberId != actor || node.maxStorageBytes == 0 || node.nodeId in nodes {
        return Err(State);
      }
      ghost var before := Now();
      AppendAudit(now, "node_registered", actor, node.nodeId);
      nodes := nodes[node.nodeId := node];
      AgreeSame(Now(), Apply(before, NodeRegistered(actor, node, now)));
      Settle(before, NodeRegistered(actor, node, now));
      r := Ok(());
    }

    method RegisterObject(actor: Bytes, obj: ObjectRecord, now: I64) returns (r: Result<(), ControlError>)
      requires Valid()
      modifies this
      ensures Valid() && Took(old(Now()), old(history), ObjectRegistered(actor, obj, now), r)
      ensures challenges == old(challenges) && replayNonces == old(replayNonces)
    {
      hide Legal, Replayed, Agree, EventsOf, Append, VerifyTrusted, Ascii;
      if !IsActive(Now(), actor) {
        return Err(Unauthorized);
      }
      if !IsCidText(obj.objectCid) || obj.ciphertextSize == 0 || obj.objectCid in objects {
        return Err(State);
      }
      ghost var before := Now();
      AppendAudit(now, "object_registered", actor, obj.objectCid);
      objects := objects[obj.objectCid := obj];
      AgreeSame(Now(), Apply(before, ObjectRegistered(actor, obj, now)));
      Settle(before, ObjectRegistered(actor, obj, now));
      r := Ok(());
    }

    /** Looks through the placements for a healthy one of this object on this node. */
    method FindHealthy(objectCid: Bytes, nodeId: Bytes) returns (found: bool)
      ensures found <==> HasHealthy(placements, objectCid, nodeId)
    {
      found := false;
      var left := placements.Keys;
      while left != {}
        invariant left <= placements.Keys
        invariant found <==> exists id :: id in placements && id !in left && placements[id].objectCid == objectCid
                                         && placements[id].nodeId == nodeId && placements[id].status == "healthy"
        decreases left
      {
        var id :| id in left;
        left := left - {id};
        found := found || (placements[id].objectCid == objectCid && placements[id].nodeId == nodeId && placements[id].status == "healthy");
      }
    }

    method AddPlacement(actor: Bytes, placement: Placement, now: I64) returns (r: Result<(), ControlError>)
      requires Valid()
      modifies this
      ensures Valid() && Took(old(Now()), old(history), PlacementAdded(actor, placement, now), r)
      ensures challenges == old(challenges) && replayNonces == old(replayNonces)
    {
      hide Legal, Replayed, Agree, EventsOf, Append, VerifyTrusted, Ascii, HasHealthy;
      if !IsActive(Now(), actor) {
        return Err(Unauthorized);
      }
      var healthy := FindHealthy(placement.objectCid, placement.nodeId);
      if || placement.objectCid !in objects
         || placement.nodeId !in nodes
         || placement.placementId in placements
         || healthy
      {
        return Err(State);
      }
      ghost var before := Now();
      AppendAudit(now, "placement_created", actor, placement.placementId);
      placements := placements[placement.placementId := placement];
      AgreeSame(Now(), Apply(before, PlacementAdded(actor, placement, now)));
      Settle(before, PlacementAdded(actor, placement, now));
      r := Ok(());
    }

    method UpdateCatalogPointer(actor: Bytes, pointer: CatalogPointer) returns (r: Result<(), ControlError>)
      requires Valid()
      modifies this
      ensures Valid() && Took(old(Now()), old(history), PointerUpdated(actor, pointer), r)
      ensures challenges == old(challenges) && replayNonces == old(replayNonces)
    {
      hide Legal, Replayed, Agree, EventsOf, Append, VerifyTrusted, Ascii, PointerBytes;
      if !IsActive(Now(), actor) {
        return Err(Unauthorized);
      }
      if !MemberSigned(members[actor].credential, PointerBytes(pointer), pointer.ownerSignature) {
        return Err(InvalidSignature);
      }
      if pointer.vaultId in catalogPointers {
        var previous := catalogPointers[pointer.vaultId];
        if pointer.version != previous.version + 1 || pointer.previousCid != Some(previous.catalogCid) {
          return Err(State);
        }
      } else if pointer.version != 1 || pointer.previousCid.Some? {
        return Err(State);
      }
      ghost var before := Now();
      AppendAudit(pointer.signedAt, "catalog_pointer_updated", actor, pointer.vaultId);
      catalogPointers := catalogPointers[pointer.vaultId := pointer];
      AgreeSame(Now(), Apply(before, PointerUpdated(actor, pointer)));
      Settle(before, PointerUpdated(actor, pointer));
      r := Ok(());
    }

    /** An empty ledger is opened first, even if the entry is then refused. */
    method RecordCredit(memberId: Bytes, entry: CreditEntry) returns (r: Result<(), ControlError>)
      requires Valid()
      modifies this
      ensures Valid() && Took(old(Now()), old(history), CreditRecorded(memberId, entry), r)
      ensures challenges == old(challenges) && replayNonces == old(replayNonces)
    {
      hide Agree, Legal, Replayed, EventsOf, Append, Ascii, ReasonName, Refusal, Decide, Apply, EventAfter, OnRecord;
      CreditDecided(env, Now(), memberId, entry);
      if !IsActive(Now(), memberId) {
        return Err(Unauthorized);
      }
      ghost var before := Now();
      OpenLedger(memberId);
      OpenedDecides(before, Now(), memberId, entry);
      var refusal := Refusal(credits[memberId], entry);
      if refusal.Some? {
        return Err(CreditRefused(refusal.value));
      }
      EnterCredit(memberId, entry, before);
      r := Ok(());
    }

    /** Audits and appends an entry that is not refused. */
    method EnterCredit(memberId: Bytes, entry: CreditEntry, ghost before: Records)
      requires Valid() && memberId in credits && Agree(before, Replayed(founder, history))
      requires Decide(env, before, CreditRecorded(memberId, entry)).Ok?
      requires Agree(Now().(credits := credits[memberId := credits[memberId] + [entry]]), Apply(before, CreditRecorded(memberId, entry)))
      modifies `auditEvents, `credits, `history
      ensures Valid() && history == old(history) + [CreditRecorded(memberId, entry)]
      ensures OnRecord(Now(), CreditRecorded(memberId, entry))
    {
      hide Agree, Legal, Replayed, EventsOf, Append, Ascii, ReasonName, Decide, Apply, EventAfter;
      CreditEvent(env.hash, auditEvents, memberId, entry);
      AppendAudit(entry.occurredAt, "credit_entry_recorded", memberId, ReasonName(entry.reason));
      credits := credits[memberId := credits[memberId] + [entry]];
      Settle(before, CreditRecorded(memberId, entry));
    }

    /** A member who has no ledger is given an empty one. */
    method OpenLedger(memberId: Bytes)
      requires Valid()
      modifies `credits
      ensures Valid() && Agree(old(Now()), Replayed(founder, history))
      ensures credits == if memberId in old(credits) then old(credits) else old(credits)[memberId := []]
    {
      hide Agree, Legal, Replayed, EventsOf;
      if memberId !in credits {
        OpenedLedgerAgrees(Now(), Replayed(founder, history), memberId);
        credits := credits[memberId := []];
      }
    }

    lemma {:induction false} CreditDecided(env: Setting, s: Records, memberId: Bytes, entry: CreditEntry)
      ensures Decide(env, s, CreditRecorded(memberId, entry)) ==
              if !IsActive(s, memberId) then Err(Unauthorized)
              else
                match Refusal(Ledger(s.credits, memberId), entry)
                case Some(e) => Err(CreditRefused(e))
                case None => Ok(())
    {
      hide Refusal, Ledger;
    }

    lemma {:induction false} CreditEvent(hash: Hash, events: seq<AuditEvent>, memberId: Bytes, entry: CreditEntry)
      ensures EventAfter(hash, events, CreditRecorded(memberId, entry)) ==
              Append(hash, Last(events), entry.occurredAt, Ascii("credit_entry_recorded"), memberId, ReasonName(entry.reason))
    {
      hide Append, Ascii, ReasonName;
    }

    /** A member without a ledger has no balance. */
    method CreditBalance(memberId: Bytes, now: I64) returns (r: Result<I64, ControlError>)
      requires Valid()
      ensures if !IsActive(Now(), memberId) then r == Err(Unauthorized)
              else match Balance(Ledger(credits, memberId), now) case Ok(sum) => r == Ok(sum) case Err(e) => r == Err(CreditRefused(e))
      ensures KeysUnique(Ledger(credits, memberId))
    {
      hide EventsOf, KeysUnique;
      HistoryKeepsLedgers(env, founder, history, memberId);
      if !IsActive(Now(), memberId) {
        return Err(Unauthorized);
      }
      if memberId !in credits {
        return Ok(0);
      }
      r := match Balance(credits[memberId], now) case Ok(sum) => Ok(sum) case Err(e) => Err(CreditRefused(e));
    }

    method CreateProposal(proposal: Proposal, now: I64) returns (r: Result<(), ControlError>)
      requires Valid()
      modifies this
      ensures Valid() && Took(old(Now()), old(history), ProposalCreated(proposal, now), r)
      ensures challenges == old(challenges) && replayNonces == old(replayNonces)
    {
      hide Legal, Replayed, Agree, EventsOf, Append, VerifyTrusted, Ascii;
      if !IsActive(Now(), proposal.createdByMemberId) {
        return Err(Unauthorized);
      }
      if || proposal.opensAt >= proposal.closesAt
         || proposal.quorumPercent > 100
         || proposal.thresholdPercent > 100
         || proposal.proposalId in proposals
      {
        return Err(State);
      }
      ghost var before := Now();
      AppendAudit(now, "proposal_created", proposal.createdByMemberId, proposal.proposalId);
      proposals := proposals[proposal.proposalId := proposal];
      AgreeSame(Now(), Apply(before, ProposalCreated(proposal, now)));
      Settle(before, ProposalCreated(proposal, now));
      r := Ok(());
    }

    method CastVote(vote: Vote) returns (r: Result<(), ControlError>)
      requires Valid()
      modifies this
      ensures Valid() && Took(old(Now()), old(history), VoteCast(vote), r)
      ensures challenges == old(challenges) && replayNonces == old(replayNonces)
    {
      hide Legal, Replayed, Agree, EventsOf, Append, VerifyTrusted, Trusted, Ascii, VoteBytes, HasHealthy, Succeeds,
           IsCidText, MemberSigned, PointerBytes, Refusal, OnRecord, Warranted;
      if !IsActive(Now(), vote.memberId) {
        return Err(Unauthorized);
      }
      if vote.proposalId !in proposals {
        return Err(NotFound);
      }
      if vote.castAt < proposals[vote.proposalId].opensAt || vote.castAt > proposals[vote.proposalId].closesAt {
        return Err(State);
      }
      if !MemberSigned(members[vote.memberId].credential, VoteBytes(vote), vote.memberSignature) {
        return Err(InvalidSignature);
      }
      if KeyOf(vote) in votes {
        return Err(State);
      }
      ghost var before := Now();
      AppendAudit(vote.castAt, "vote_cast", vote.memberId, vote.proposalId);
      voteHistory := voteHistory + [vote];
      votes := votes[KeyOf(vote) := vote];
      AgreeSame(Now(), Apply(before, VoteCast(vote)));
      GoesOnRecord(env, before, VoteCast(vote));
      Settle(before, VoteCast(vote));
      r := Ok(());
    }

    /** Counts the members who may vote. */
    method CountActive() returns (eligible: nat)
      ensures eligible == |ActiveMembers(members)|
    {
      eligible := 0;
      var left := members.Keys;
      ghost var counted: set<Bytes> := {};
      while left != {}
        invariant left <= members.Keys && counted !! left
        invariant counted == set id | id in members && id !in left && members[id].status == "active"
        invariant eligible == |counted|
        decreases left
      {
        var id :| id in left;
        left := left - {id};
        if members[id].status == "active" {
          eligible := eligible + 1;
          counted := counted + {id};
        }
      }
      assert counted == ActiveMembers(members);
    }

    /** Counts the ballots of one choice that are not among `left`. */
    ghost function Counted(left: set<VoteKey>, proposalId: Bytes, choice: VoteChoice): set<VoteKey>
      reads this
    {
      set k | k in votes && k !in left && votes[k].proposalId == proposalId && votes[k].choice == choice
    }

    lemma {:induction false} CountOne(left: set<VoteKey>, k: VoteKey, proposalId: Bytes, choice: VoteChoice)
      requires k in left && k in votes
      ensures |Counted(left - {k}, proposalId, choice)|
           == |Counted(left, proposalId, choice)| + if votes[k].proposalId == proposalId && votes[k].choice == choice then 1 else 0
    {
      var before, after := Counted(left, proposalId, choice), Counted(left - {k}, proposalId, choice);
      if votes[k].proposalId == proposalId && votes[k].choice == choice {
        assert after == before + {k};
      } else {
        assert after == before;
      }
    }

    /** The tally of a proposal: each choice counted exactly, and together no more than may vote. */
    method Tally(proposalId: Bytes) returns (r: Result<VoteResult, ControlError>)
      requires Valid()
      ensures proposalId !in proposals <==> r == Err(NotFound)
      ensures proposalId in proposals ==> r.Ok?
      ensures r.Ok? ==>
                && r.value == VoteResult(
                     |Ballots(votes, proposalId, Yes)|, |Ballots(votes, proposalId, No)|, |Ballots(votes, proposalId, Abstain)|,
                     |ActiveMembers(members)|)
                && r.value.yes + r.value.no + r.value.abstain <= r.value.eligibleMembers
    {
      hide Legal, EventsOf, Replayed;
      if proposalId !in proposals {
        return Err(NotFound);
      }
      var eligible := CountActive();
      var yes, no, abstain := 0, 0, 0;
      var left := votes.Keys;
      NoneCounted(proposalId);
      while left != {}
        invariant left <= votes.Keys
        invariant yes == |Counted(left, proposalId, Yes)|
        invariant no == |Counted(left, proposalId, No)|
        invariant abstain == |Counted(left, proposalId, Abstain)|
        decreases left
      {
        hide Counted, Agree;
        var k :| k in left;
        CountOne(left, k, proposalId, Yes);
        CountOne(left, k, proposalId, No);
        CountOne(left, k, proposalId, Abstain);
        left := left - {k};
        if votes[k].proposalId == proposalId {
          match votes[k].choice
          case Yes => yes := yes + 1;
          case No => no := no + 1;
          case Abstain => abstain := abstain + 1;
        }
      }
      AllCounted(proposalId);
      TallyBounded(env, founder, history, proposalId);
      r := Ok(VoteResult(yes, no, abstain, eligible));
    }

    lemma {:induction false} NoneCounted(proposalId: Bytes)
      ensures forall choice :: |Counted(votes.Keys, proposalId, choice)| == 0
    {
      forall choice ensures |Counted(votes.Keys, proposalId, choice)| == 0 {
        assert Counted(votes.Keys, proposalId, choice) == {};
      }
    }

    lemma {:induction false} AllCounted(proposalId: Bytes)
      ensures forall choice :: Counted({}, proposalId, choice) == Ballots(votes, proposalId, choice)
    {
    }

    method IssueChallenge(value: Bytes, now: I64)
      modifies `challenges
      ensures Gate(challenges, replayNonces) == AfterCall(old(Gate(challenges, replayNonces)), Issue(value, now))
    {
      challenges := challenges[value := Challenge(WrapI64(now + 300), false)];
    }

    /** The nonce goes into the set before anything else is looked at. */
    method ConsumeChallenge(challenge: Bytes, nonce: Bytes, now: I64) returns (r: Result<(), ControlError>)
      modifies `challenges, `replayNonces
      ensures r == if old(Opens(Gate(challenges, replayNonces), challenge, nonce, now)) then Ok(()) else Err(Replay)
      ensures Gate(challenges, replayNonces) == AfterCall(old(Gate(challenges, replayNonces)), Consume(challenge, nonce, now))
    {
      if |nonce| < 16 || nonce in replayNonces {
        assert replayNonces + {nonce} == replayNonces || |nonce| < 16;
        return Err(Replay);
      }
      replayNonces := replayNonces + {nonce};
      if challenge !in challenges {
        return Err(Replay);
      }
      var item := challenges[challenge];
      if item.consumed || item.expiresAt < now {
        return Err(Replay);
      }
      challenges := challenges[challenge := item.(consumed := true)];
      r := Ok(());
    }

    /** An export never fails, holds the records as they stand, and verifies. */
    method ExportSnapshot(json: Json) returns (r: Result<CommunitySnapshot, ControlError>)
      requires Valid()
      ensures r.Ok? && VerifySnapshot(env.hash, json, r.value) == r
      ensures r.value.auditEvents == auditEvents && |auditEvents| == |history| + 1
      ensures r.value.community == env.community && r.value.members == members && r.value.nodes == nodes
      ensures r.value.catalogPointers == catalogPointers
    {
      hide Legal, Agree, Replayed, ChainOk, AuditRoot;
      EventsVerify(env, founder, history);
      var verified := VerifyChain(env.hash, auditEvents);
      if verified.Err? {
        return Err(Snapshot);
      }
      var snapshot := CommunitySnapshot(
        1, env.community, members, nodes, catalogPointers, auditEvents, AuditRoot(env.hash, auditEvents), []);
      r := Ok(snapshot.(snapshotHash := Hex(env.hash(json(snapshot)))));
      assert r.value.(snapshotHash := []) == snapshot;
    }
  }
}
