/**
  Signed wire requests and the replay table: a pruned cache of every request ever accepted.
 */
module Replay {
  import opened Wrappers
  import opened ByteStrings
  import opened MachineIntegers
  import opened Identity
  import opened Text
  import opened Merkle
  import opened Canonical
  import opened Credentials

  const REQUEST_TTL_SECONDS: I64 := 300
  const MAX_OBJECT_BYTES: nat := 4 * 1024 * 1024 + 128 * 1024
  const MAX_FRAME_BYTES: nat := MAX_OBJECT_BYTES * 4 / 3 + 64 * 1024

  datatype Operation = Hello | HasObject | PutObject | GetObject | AuditObject | DeleteAfter | ReplicateObject | Ping

  datatype Request = Request(
    protocolVersion: U16,
    requestId: Bytes,
    communityId: Bytes,
    nodeId: Bytes,
    operation: Operation,
    objectCid: Option<Bytes>,
    issuedAt: I64,
    expiresAt: I64,
    credential: MembershipCredential)

  datatype WireFrame = WireFrame(
    request: Request,
    requestSignature: Signature<Bytes>,
    nodeCertificate: NodeCertificate,
    nodeOwnerPublicKey: Bytes,
    payload: Bytes)

  datatype ProtocolError = Version | Oversized | RequestId | Lifetime | ObjectCid | Credential | Unauthorized

  datatype FrameError =
    | CertificateRefused(identity: IdentityError)
    | NodeMismatch
    | OwnerMismatch
    | Refused(protocol: ProtocolError)
    | RequestUnsigned
    | Replayed
    | TableFailed

  function OperationName(o: Operation): Bytes {
    match o
    case Hello => Ascii("Hello")
    case HasObject => Ascii("HasObject")
    case PutObject => Ascii("PutObject")
    case GetObject => Ascii("GetObject")
    case AuditObject => Ascii("AuditObject")
    case DeleteAfter => Ascii("DeleteAfter")
    case ReplicateObject => Ascii("ReplicateObject")
    case Ping => Ascii("Ping")
  }

  function SigningFields(r: Request, payloadCid: Bytes): seq<Bytes> {
    [ Ascii("acm.request.v1"),
      Decimal(r.protocolVersion),
      r.requestId,
      r.communityId,
      r.nodeId,
      OperationName(r.operation),
      if r.objectCid.Some? then r.objectCid.value else [],
      Decimal(r.issuedAt),
      Decimal(r.expiresAt),
      payloadCid ]
  }

  function SigningBytes(hash: Hash, f: WireFrame): Bytes {
    Joined(SigningFields(f.request, Hex(hash(f.payload))))
  }

  function ReplayKey(r: Request): Bytes {
    Joined([r.communityId, r.credential.claims.memberId, r.requestId])
  }

  // ---------- the checks ----------

  /** The span is a 64-bit subtraction, so it wraps. */
  predicate LifetimeOk(issuedAt: I64, expiresAt: I64, now: I64) {
    && issuedAt <= WrapI64(now + REQUEST_TTL_SECONDS)
    && expiresAt >= now
    && WrapI64(expiresAt - issuedAt) <= REQUEST_TTL_SECONDS
  }

  predicate Allowed(o: Operation, roles: seq<Bytes>) {
    match o
    case Hello | Ping | HasObject | GetObject => Ascii("member") in roles || Ascii("node") in roles
    case PutObject | ReplicateObject => Ascii("node") in roles
    case AuditObject => Ascii("auditor") in roles
    case DeleteAfter => Ascii("admin") in roles
  }

  function ValidateRequest(hash: Hash, r: Request, communityRoot: Bytes, now: I64,
          frameSize: nat): Result<(), ProtocolError> {
    if r.protocolVersion != 1 then Err(Version)
    else if frameSize > MAX_FRAME_BYTES then Err(Oversized)
    else if |r.requestId| < 16 || |r.requestId| > 128 then Err(RequestId)
    else if !LifetimeOk(r.issuedAt, r.expiresAt, now) then Err(Lifetime)
    else if !r.operation.Hello? && !r.operation.Ping? && (r.objectCid.None? || !IsCidText(r.objectCid.value)) then Err(ObjectCid)
    else if VerifyTrusted(hash, r.credential, r.communityId, communityRoot, now, REQUEST_TTL_SECONDS).Err? then Err(Credential)
    else if !Allowed(r.operation, r.credential.claims.roles) then Err(Unauthorized)
    else Ok(())
  }

  /** Everything that is checked before the replay table is asked. */
  function Screen(hash: Hash, f: WireFrame, frameSize: nat, endpoint: Bytes, communityRoot: Bytes,
          now: I64): Result<(), FrameError> {
    match VerifyCertificate(hash, f.nodeCertificate, f.nodeOwnerPublicKey, f.request.communityId, endpoint, now, REQUEST_TTL_SECONDS)
    case Err(e) => Err(CertificateRefused(e))
    case Ok(_) =>
      if f.request.nodeId != f.nodeCertificate.claims.nodeId then Err(NodeMismatch)
      else if || f.nodeCertificate.claims.ownerMemberId != f.request.credential.claims.memberId
              || f.nodeOwnerPublicKey != f.request.credential.claims.memberPublicKey
      then Err(OwnerMismatch)
      else
        match ValidateRequest(hash, f.request, communityRoot, now, frameSize)
        case Err(e) => Err(Refused(e))
        case Ok(_) =>
          if MemberSigned(f.request.credential, SigningBytes(hash, f), f.requestSignature) then Ok(()) else Err(RequestUnsigned)
  }

  /**
    Screening passes exactly the frames of version 1 and bounded size, identifier, object and
    span, whose certificate and credential are the owner's and the root key's own, name the same
    node, member and community, allow the operation, and whose member signed every field.
   */
  lemma {:induction false} ScreenIff(hash: Hash, f: WireFrame, frameSize: nat, endpoint: Bytes, communityRoot: Bytes, now: I64)
    ensures Screen(hash, f, frameSize, endpoint, communityRoot, now).Ok? <==>
            var r, member := f.request, f.request.credential.claims;
            && CertifiedBy(hash, f.nodeCertificate, f.nodeOwnerPublicKey, r.communityId, endpoint, now, 300)
            && IssuedBy(hash, r.credential, r.communityId, communityRoot, now, 300)
            && r.nodeId == f.nodeCertificate.claims.nodeId
            && f.nodeCertificate.claims.ownerMemberId == member.memberId && f.nodeOwnerPublicKey == member.memberPublicKey
            && r.protocolVersion == 1 && frameSize <= 5_832_704 && 16 <= |r.requestId| <= 128
            && r.issuedAt <= WrapI64(now + 300) && now <= r.expiresAt && WrapI64(r.expiresAt - r.issuedAt) <= 300
            && (r.operation != Hello && r.operation != Ping ==> r.objectCid.Some? && IsCidText(r.objectCid.value))
            && Grants(member.roles, r.operation)
            && f.requestSignature == Signature(PublicKey(member.memberPublicKey), SigningBytes(hash, f))
  {
    hide SigningBytes, IsCidText, Ascii, VerifyTrusted, VerifyCertificate, IssuedBy, CertifiedBy;
    TrustedIff(hash, f.request.credential, f.request.communityId, communityRoot, now, 300);
    CertificateIff(hash, f.nodeCertificate, f.nodeOwnerPublicKey, f.request.communityId, endpoint, now, 300);
  }

  /** Nodes may do all but audit and delete, members only ask and read, auditors audit, and admins delete. */
  predicate Grants(roles: seq<Bytes>, o: Operation) {
    || (Ascii("node") in roles && o != AuditObject && o != DeleteAfter)
    || (Ascii("member") in roles && (o == Hello || o == Ping || o == HasObject || o == GetObject))
    || (Ascii("auditor") in roles && o == AuditObject)
    || (Ascii("admin") in roles && o == DeleteAfter)
  }

  // ---------- how long a request may live ----------

  /**
    Whatever expiry a request with this issue time claims, once it passes it is gone within 600
    seconds: exactly when the issue time is not negative, so that the span cannot wrap.
   */
  lemma {:induction false} LifetimeBoundIff(issuedAt: I64, now: I64)
    requires 0 <= now < I64_MAX - 600
    ensures (forall expiresAt: I64 :: LifetimeOk(issuedAt, expiresAt, now) ==> expiresAt <= now + 600) <==> issuedAt >= 0
  {
    if issuedAt < 0 {
      assert WrapI64(I64_MAX - issuedAt) <= 0;
      assert LifetimeOk(issuedAt, I64_MAX, now);
    } else {
      forall expiresAt: I64 | LifetimeOk(issuedAt, expiresAt, now) ensures expiresAt <= now + 600 {
        assert FitsI64(expiresAt - issuedAt);
      }
    }
  }

  // ---------- the table as values ----------

  type Rows = map<Bytes, I64>

  function Prune(rows: Rows, now: int): Rows {
    map k | k in rows && rows[k] >= now :: rows[k]
  }

  /** Deletes the rows that have expired, then inserts the key unless it is there. */
  function ClaimRow(rows: Rows, key: Bytes, expiresAt: I64, now: int): (Rows, bool) {
    var left := Prune(rows, now);
    if key in left then (left, false) else (left[key := expiresAt], true)
  }

  /** A request that was accepted, and when. */
  datatype Accepted = Accepted(frame: WireFrame, at: I64) {
    function Key(): Bytes {
      ReplayKey(frame.request)
    }

    function ExpiresAt(): I64 {
      frame.request.expiresAt
    }
  }

  /** What a log of every accepted request would answer: this key has an entry that has not expired. */
  predicate Held(log: seq<Accepted>, key: Bytes, now: int) {
    exists i :: 0 <= i < |log| && log[i].Key() == key && log[i].ExpiresAt() >= now
  }

  /** What the log would answer if it never forgot. */
  predicate Seen(log: seq<Accepted>, key: Bytes) {
    exists i :: 0 <= i < |log| && log[i].Key() == key
  }

  /** The rows are the unexpired part of the log. */
  ghost predicate Caches(rows: Rows, log: seq<Accepted>, clock: int) {
    && (forall k :: k in rows <==> Held(log, k, clock))
    && forall i :: 0 <= i < |log| && log[i].ExpiresAt() >= clock ==> log[i].Key() in rows && rows[log[i].Key()] == log[i].ExpiresAt()
  }

  /** Entries were accepted in order and unexpired, and a key came back only after its earlier entries expired. */
  ghost predicate LogOk(hash: Hash, log: seq<Accepted>, clock: int) {
    && (forall i :: 0 <= i < |log| ==> log[i].at <= clock && InTime(log[i]) && Signed(hash, log[i].frame))
    && (forall i, j :: 0 <= i < j < |log| ==> log[i].at <= log[j].at)
    && (forall i, j :: 0 <= i < j < |log| && log[i].Key() == log[j].Key() ==> log[i].ExpiresAt() < log[j].at)
  }

  predicate InTime(e: Accepted) {
    LifetimeOk(e.frame.request.issuedAt, e.ExpiresAt(), e.at)
  }

  /** The member named by the credential signed the request. */
  predicate Signed(hash: Hash, f: WireFrame) {
    && f.request.credential.claims.memberId == MemberIdOf(hash, f.request.credential.claims.memberPublicKey)
    && MemberSigned(f.request.credential, SigningBytes(hash, f), f.requestSignature)
  }

  lemma {:induction false} PruneKeepsCache(rows: Rows, log: seq<Accepted>, clock: int, now: int)
    requires Caches(rows, log, clock) && clock <= now
    ensures Caches(Prune(rows, now), log, now)
  {
    forall k ensures k in Prune(rows, now) <==> Held(log, k, now) {
      if Held(log, k, now) {
        var i :| 0 <= i < |log| && log[i].Key() == k && log[i].ExpiresAt() >= now;
        assert k in rows && rows[k] == log[i].ExpiresAt();
      }
      if k in Prune(rows, now) {
        var i :| 0 <= i < |log| && log[i].Key() == k && log[i].ExpiresAt() >= clock;
      }
    }
  }

  lemma {:induction false} ClaimKeepsCache(rows: Rows, log: seq<Accepted>, now: int, entry: Accepted)
    requires Caches(rows, log, now) && !Held(log, entry.Key(), now) && entry.ExpiresAt() >= now
    ensures Caches(rows[entry.Key() := entry.ExpiresAt()], log + [entry], now)
  {
    var longer, added := log + [entry], rows[entry.Key() := entry.ExpiresAt()];
    forall k ensures k in added <==> Held(longer, k, now) {
      if k == entry.Key() {
        assert longer[|log|] == entry;
      } else if Held(log, k, now) {
        var i :| 0 <= i < |log| && log[i].Key() == k && log[i].ExpiresAt() >= now;
        assert longer[i] == log[i];
      }
    }
    forall i | 0 <= i < |longer| && longer[i].ExpiresAt() >= now
      ensures longer[i].Key() in added && added[longer[i].Key()] == longer[i].ExpiresAt()
    {
      if i < |log| {
        assert longer[i] == log[i];
        assert Held(log, log[i].Key(), now);
      }
    }
  }

  // ---------- the table in place ----------

  class ReplayTable {
    const hash: Hash
    /** The rows committed to the database file. */
    var rows: Rows
    ghost var log: seq<Accepted>
    /** The latest time a transaction pruned at. */
    ghost var clock: int

    ghost predicate Valid()
      reads this
    {
      LogOk(hash, log, clock) && Caches(rows, log, clock)
    }

    constructor (hash: Hash, start: I64)
      ensures Valid() && log == [] && clock == start && this.hash == hash
    {
      hide Signed, ReplayKey, LifetimeOk;
      this.hash, rows, log, clock := hash, map[], [], start;
    }

    /** Opening a database file an earlier process left. */
    constructor Reopen(hash: Hash, stored: Rows, ghost log: seq<Accepted>, ghost clock: int)
      requires LogOk(hash, log, clock) && Caches(stored, log, clock)
      ensures Valid() && this.hash == hash && rows == stored && this.log == log && this.clock == clock
    {
      this.hash, rows, this.log, this.clock := hash, stored, log, clock;
    }

    /** One transaction on a copy of the rows; unless it commits, the file keeps the old ones. */
    method ClaimReplay(key: Bytes, expiresAt: I64, now: I64, fails: bool,
            ghost frame: WireFrame) returns (r: Result<bool, FrameError>)
      requires Valid() && clock <= now && InTime(Accepted(frame, now))
      requires key == ReplayKey(frame.request) && expiresAt == frame.request.expiresAt && Signed(hash, frame)
      modifies this
      ensures Valid()
      ensures fails ==> r == Err(TableFailed) && rows == old(rows) && log == old(log) && clock == old(clock)
      ensures !fails ==>
                && r == Ok(!Held(old(log), key, now)) && clock == now
                && (rows, r.value) == ClaimRow(old(rows), key, expiresAt, now)
                && log == if r.value then old(log) + [Accepted(frame, now)] else old(log)
    {
      hide Caches, LogOk, Signed, ReplayKey, Held;
      var working := Prune(rows, now);
      var inserted := key !in working;
      PruneKeepsCache(rows, log, clock, now);
      CacheAnswers(working, log, now, key);
      ghost var entry := Accepted(frame, now);
      if inserted {
        ClaimKeepsCache(working, log, now, entry);
        working := working[key := expiresAt];
      }
      if fails {
        return Err(TableFailed);
      }
      if inserted {
        LogGrows(hash, log, clock, now, entry);
        log := log + [entry];
      } else {
        LogAges(hash, log, clock, now);
      }
      clock := now;
      rows := working;
      r := Ok(inserted);
    }

    /** A frame is accepted exactly when every check passes and no unexpired request holds its key. */
    method ValidateFrame(f: WireFrame, frameSize: nat, endpoint: Bytes, communityRoot: Bytes, now: I64, fails: bool)
      returns (r: Result<(), FrameError>)
      requires Valid() && clock <= now
      modifies this
      ensures Valid() && old(clock) <= clock <= now
      ensures var screened := Screen(hash, f, frameSize, endpoint, communityRoot, now);
              && (screened.Err? ==> r == screened)
              && (screened.Ok? && fails ==> r == Err(TableFailed))
              && (screened.Ok? && !fails ==> r == if Held(old(log), ReplayKey(f.request), now) then Err(Replayed) else Ok(()))
      ensures log == if r.Ok? then old(log) + [Accepted(f, now)] else old(log)
    {
      hide Screen, Signed, Caches, LogOk, ReplayKey, ClaimRow, Held;
      var screened := Screen(hash, f, frameSize, endpoint, communityRoot, now);
      if screened.Err? {
        return screened;
      }
      ScreenedIsSigned(hash, f, frameSize, endpoint, communityRoot, now);
      var key := ReplayKey(f.request);
      var claimed := ClaimReplay(key, f.request.expiresAt, now, fails, f);
      if claimed.Err? {
        return Err(claimed.error);
      }
      if !claimed.value {
        return Err(Replayed);
      }
      r := Ok(());
    }
  }

  lemma {:induction false} ScreenedIsSigned(hash: Hash, f: WireFrame, frameSize: nat, endpoint: Bytes,
          communityRoot: Bytes, now: I64)
    requires Screen(hash, f, frameSize, endpoint, communityRoot, now).Ok?
    ensures Signed(hash, f) && InTime(Accepted(f, now)) && now <= f.request.expiresAt
  {
    hide SigningBytes, MemberIdOf, Allowed, VerifyCertificate, VerifyCredential, IsCidText;
  }

  lemma {:induction false} CacheAnswers(rows: Rows, log: seq<Accepted>, clock: int, key: Bytes)
    requires Caches(rows, log, clock)
    ensures key in rows <==> Held(log, key, clock)
  {
  }

  lemma {:induction false} LogAges(hash: Hash, log: seq<Accepted>, clock: int, now: int)
    requires LogOk(hash, log, clock) && clock <= now
    ensures LogOk(hash, log, now)
  {
    hide Signed, ReplayKey;
  }

  lemma {:induction false} LogGrows(hash: Hash, log: seq<Accepted>, clock: int, now: int, entry: Accepted)
    requires LogOk(hash, log, clock) && clock <= now
    requires entry.at == now && InTime(entry) && Signed(hash, entry.frame) && !Held(log, entry.Key(), now)
    ensures LogOk(hash, log + [entry], now)
  {
    hide Signed, ReplayKey;
  }

  // ---------- what the table guarantees ----------

  /** A frame accepted before never passes again: while it lives its key is held, and afterwards it is out of time. */
  lemma {:induction false} AcceptedFrameNeverAgain(hash: Hash, log: seq<Accepted>, clock: int, i: nat,
          f: WireFrame, frameSize: nat, endpoint: Bytes, communityRoot: Bytes, now: I64)
    requires LogOk(hash, log, clock) && i < |log| && clock <= now && f.request == log[i].frame.request
    ensures Screen(hash, f, frameSize, endpoint, communityRoot, now).Ok? ==> Held(log, ReplayKey(f.request), now)
  {
    hide Signed, LogOk;
    if Screen(hash, f, frameSize, endpoint, communityRoot, now).Ok? {
      ScreenedIsSigned(hash, f, frameSize, endpoint, communityRoot, now);
      assert log[i].Key() == ReplayKey(f.request) && log[i].ExpiresAt() >= now;
    }
  }

  /** One signature is never accepted twice, unless its bytes split into fields in a second way. */
  lemma {:induction false} SignatureAcceptedOnce(hash: Hash, log: seq<Accepted>, clock: int, i: nat, j: nat)
    requires LogOk(hash, log, clock) && i < j < |log|
    ensures log[i].frame.request != log[j].frame.request
    ensures log[i].frame.requestSignature == log[j].frame.requestSignature ==>
              !SameBars(SignedFields(hash, log[i].frame), SignedFields(hash, log[j].frame))
  {
    hide MemberIdOf, SignedFields;
    var f, g := log[i].frame, log[j].frame;
    assert log[i].Key() == ReplayKey(f.request) && log[j].Key() == ReplayKey(g.request);
    assert log[i].ExpiresAt() == f.request.expiresAt && log[j].ExpiresAt() == g.request.expiresAt >= log[j].at;
    if f.requestSignature == g.requestSignature && SameBars(SignedFields(hash, f), SignedFields(hash, g)) {
      SameSignedKey(hash, f, g);
    }
  }

  function SignedFields(hash: Hash, f: WireFrame): seq<Bytes> {
    SigningFields(f.request, Hex(hash(f.payload)))
  }

  lemma {:induction false} SameSignedKey(hash: Hash, f: WireFrame, g: WireFrame)
    requires Signed(hash, f) && Signed(hash, g) && f.requestSignature == g.requestSignature
    requires SameBars(SignedFields(hash, f), SignedFields(hash, g))
    ensures ReplayKey(f.request) == ReplayKey(g.request) && f.request.expiresAt == g.request.expiresAt
  {
    hide MemberIdOf, OperationName, Hex, Joined;
    var a, b := SignedFields(hash, f), SignedFields(hash, g);
    JoinedUnique(a, b);
    assert a[2] == b[2] && a[3] == b[3] && a[8] == b[8];
    DecimalInjective(f.request.expiresAt, g.request.expiresAt);
  }

  /**
    Bars in request identifiers do no harm: with none in community, node and object fields the
    split is the same, so each signature is accepted at most once.
   */
  lemma {:induction false} BarFreeSignatureAcceptedOnce(hash: Hash, log: seq<Accepted>, clock: int, i: nat, j: nat)
    requires LogOk(hash, log, clock) && i < j < |log|
    requires FieldsBarFree(log[i].frame.request) && FieldsBarFree(log[j].frame.request)
    ensures log[i].frame.requestSignature != log[j].frame.requestSignature
  {
    hide Bars, Joined, MemberIdOf, Hex, SigningFields, ReplayKey, LifetimeOk;
    SignatureAcceptedOnce(hash, log, clock, i, j);
    var f, g := log[i].frame, log[j].frame;
    if f.requestSignature == g.requestSignature {
      SignedOneText(hash, f, g);
      OneBarredField(f.request, Hex(hash(f.payload)));
      OneBarredField(g.request, Hex(hash(g.payload)));
      OneBarredFieldUnique(SignedFields(hash, f), SignedFields(hash, g), 2);
    }
  }

  lemma {:induction false} SignedOneText(hash: Hash, f: WireFrame, g: WireFrame)
    requires Signed(hash, f) && Signed(hash, g) && f.requestSignature == g.requestSignature
    ensures |SignedFields(hash, f)| == |SignedFields(hash, g)| == 10
    ensures Joined(SignedFields(hash, f)) == Joined(SignedFields(hash, g))
  {
    hide MemberIdOf, OperationName, Hex, Joined, Ascii, Decimal;
  }

  /** One signature stands for one request and one payload hash, bars in the identifier included. */
  lemma {:induction false} SignatureFixesRequest(hash: Hash, f: WireFrame, g: WireFrame)
    requires Signed(hash, f) && Signed(hash, g) && f.requestSignature == g.requestSignature
    requires FieldsBarFree(f.request) && FieldsBarFree(g.request)
    ensures f.request.(objectCid := None, credential := g.request.credential) == g.request.(objectCid := None)
    ensures hash(f.payload) == hash(g.payload)
    ensures f.request.objectCid == g.request.objectCid || (f.request.objectCid.None? && g.request.objectCid == Some([]))
         || (f.request.objectCid == Some([]) && g.request.objectCid.None?)
  {
    hide Bars, Joined, MemberIdOf, Hex, OperationName, Ascii;
    var a, b := SignedFields(hash, f), SignedFields(hash, g);
    SignedOneText(hash, f, g);
    OneBarredField(f.request, Hex(hash(f.payload)));
    OneBarredField(g.request, Hex(hash(g.payload)));
    OneBarredFieldUnique(a, b, 2);
    assert a[1] == b[1] && a[2] == b[2] && a[3] == b[3] && a[4] == b[4] && a[5] == b[5];
    assert a[6] == b[6] && a[7] == b[7] && a[8] == b[8] && a[9] == b[9];
    DecimalInjective(f.request.protocolVersion, g.request.protocolVersion);
    DecimalInjective(f.request.issuedAt, g.request.issuedAt);
    DecimalInjective(f.request.expiresAt, g.request.expiresAt);
    NamesDiffer(f.request.operation, g.request.operation);
    HexInjective(hash(f.payload), hash(g.payload));
  }

  lemma {:induction false} NamesDiffer(o: Operation, p: Operation)
    requires OperationName(o) == OperationName(p)
    ensures o == p
  {
    NameStarts(o);
    NameStarts(p);
  }

  lemma {:induction false} NameStarts(o: Operation)
    ensures (|OperationName(o)|, OperationName(o)[0]) ==
            match o
            case Hello => (5, 72)
            case HasObject => (9, 72)
            case PutObject => (9, 80)
            case GetObject => (9, 71)
            case AuditObject => (11, 65)
            case DeleteAfter => (11, 68)
            case ReplicateObject => (15, 82)
            case Ping => (4, 80)
  {
  }

  /** Keys tell requests apart by community, member and identifier. */
  lemma {:induction false} KeysTellApart(r: Request, q: Request)
    requires BarFree(r.communityId) && BarFree(q.communityId)
    requires BarFree(r.credential.claims.memberId) && BarFree(q.credential.claims.memberId)
    ensures ReplayKey(r) == ReplayKey(q) <==>
              r.communityId == q.communityId && r.credential.claims.memberId == q.credential.claims.memberId && r.requestId == q.requestId
  {
    hide Bars, Joined, BarFree;
    var a := [r.communityId, r.credential.claims.memberId, r.requestId];
    var b := [q.communityId, q.credential.claims.memberId, q.requestId];
    BarFreeHasNone(r.communityId);
    BarFreeHasNone(q.communityId);
    BarFreeHasNone(r.credential.claims.memberId);
    BarFreeHasNone(q.credential.claims.memberId);
    if ReplayKey(r) == ReplayKey(q) {
      JoinedUnique(a, b);
      assert a[0] == b[0] && a[1] == b[1] && a[2] == b[2];
    }
  }

  predicate FieldsBarFree(r: Request) {
    BarFree(r.communityId) && BarFree(r.nodeId) && (r.objectCid.Some? ==> BarFree(r.objectCid.value))
  }

  /** Then only the request identifier may hold bars. */
  lemma {:induction false} OneBarredField(r: Request, payloadCid: Bytes)
    requires FieldsBarFree(r) && BarFree(payloadCid)
    ensures |SigningFields(r, payloadCid)| == 10
    ensures forall k :: 0 <= k < 10 && k != 2 ==> Bars(SigningFields(r, payloadCid)[k]) == 0
  {
    hide Bars, Decimal, BarFree, Ascii;
    var fields := SigningFields(r, payloadCid);
    NumbersAreBarFree(r.protocolVersion);
    NumbersAreBarFree(r.issuedAt);
    NumbersAreBarFree(r.expiresAt);
    NoBarInNothing();
    forall k | 0 <= k < 10 && k != 2 ensures Bars(fields[k]) == 0 {
      NamesAreBarFree(r.operation);
      BarFreeHasNone(fields[k]);
    }
  }

  lemma {:induction false} NoBarInNothing()
    ensures BarFree([])
  {
  }

  /**
    A greeting's object field is not checked, and with bars in it one signed text reads as two
    requests with different identifiers and keys.
   */
  lemma {:induction false} BarredObjectSplitsTwice(r: Request, id: Bytes, x: Bytes, y: Bytes, payloadCid: Bytes)
    returns (first: Request, second: Request)
    requires r.operation.Hello?
    ensures first == r.(requestId := id, objectCid := first.objectCid)
    ensures second == r.(operation := Ping, requestId := second.requestId, objectCid := Some(y))
    ensures first.requestId != second.requestId
    ensures Joined(SigningFields(first, payloadCid)) == Joined(SigningFields(second, payloadCid))
  {
    hide Ascii, Decimal, Joined;
    var names := [r.communityId, r.nodeId];
    var tail := [x] + names + [OperationName(Ping), y];
    var head := [id] + names + [OperationName(Hello), x];
    first := r.(requestId := id, objectCid := Some(Joined(tail)));
    second := r.(operation := Ping, requestId := Joined(head), objectCid := Some(y));
    LongerThanFirst(head);
    var front := [Ascii("acm.request.v1"), Decimal(r.protocolVersion)];
    var back := [Decimal(r.issuedAt), Decimal(r.expiresAt), payloadCid];
    JoinedNested(front + [id] + names + [OperationName(Hello)], tail, back);
    JoinedNested(front, head, names + [OperationName(Ping), y] + back);
    assert SigningFields(first, payloadCid) == front + [id] + names + [OperationName(Hello)] + [Joined(tail)] + back;
    assert SigningFields(second, payloadCid) == front + [Joined(head)] + (names + [OperationName(Ping), y] + back);
    assert front + [id] + names + [OperationName(Hello)] + tail + back == front + head + (names + [OperationName(Ping), y] + back);
  }

  lemma {:induction false} LongerThanFirst(fields: seq<Bytes>)
    requires |fields| > 1
    ensures |Joined(fields)| > |fields[0]|
  {
  }

  lemma {:induction false} AsciiBarFree(text: string)
    requires forall i :: 0 <= i < |text| ==> text[i] != '|'
    ensures BarFree(Ascii(text))
  {
    assert forall i :: 0 <= i < |text| ==> Ascii(text)[i] == AsciiByte(text[i]);
  }

  lemma {:induction false} NamesAreBarFree(o: Operation)
    ensures BarFree(OperationName(o)) && BarFree(Ascii("acm.request.v1"))
  {
    hide Ascii, BarFree;
    AsciiBarFree("acm.request.v1");
    match o {
      case Hello => AsciiBarFree("Hello");
      case HasObject => AsciiBarFree("HasObject");
      case PutObject => AsciiBarFree("PutObject");
      case GetObject => AsciiBarFree("GetObject");
      case AuditObject => AsciiBarFree("AuditObject");
      case DeleteAfter => AsciiBarFree("DeleteAfter");
      case ReplicateObject => AsciiBarFree("ReplicateObject");
      case Ping => AsciiBarFree("Ping");
    }
  }

  /** Every row is gone within 600 seconds of the last accept, when no accepted request was issued before time began. */
  lemma {:induction false} RowsExpireSoon(hash: Hash, rows: Rows, log: seq<Accepted>, clock: int, key: Bytes)
    requires LogOk(hash, log, clock) && Caches(rows, log, clock) && key in rows
    requires forall e :: e in log ==> e.frame.request.issuedAt >= 0 && 0 <= e.at < I64_MAX - 600
    ensures |log| > 0 && rows[key] <= log[|log| - 1].at + 600
  {
    hide Signed, ReplayKey, LifetimeOk;
    var i :| 0 <= i < |log| && log[i].Key() == key && log[i].ExpiresAt() >= clock;
    assert log[i] in log && InTime(log[i]);
    LifetimeBoundIff(log[i].frame.request.issuedAt, log[i].at);
    assert log[i].at <= log[|log| - 1].at;
  }

  // ---------- where the pruned table and a full log part ----------

  /** The table answers as a log that never forgets exactly when the key is new or some request under it still lives. */
  lemma {:induction false} AnswersLikeFullLogIff(hash: Hash, rows: Rows, log: seq<Accepted>, clock: int,
          key: Bytes, expiresAt: I64, now: int)
    requires LogOk(hash, log, clock) && Caches(rows, log, clock) && clock <= now
    ensures ClaimRow(rows, key, expiresAt, now).1 == !Seen(log, key) <==>
              (forall i :: 0 <= i < |log| && log[i].Key() == key ==> exists j :: 0 <= j < |log| && log[j].Key() == key && log[j].ExpiresAt() >= now)
  {
    hide ReplayKey, LogOk;
    PruneKeepsCache(rows, log, clock, now);
    CacheAnswers(Prune(rows, now), log, now, key);
  }

  datatype Call = Call(key: Bytes, expiresAt: I64, now: int)

  function AfterCalls(rows: Rows, calls: seq<Call>): Rows {
    if |calls| == 0 then rows
    else
      var c := calls[|calls| - 1];
      ClaimRow(AfterCalls(rows, calls[..|calls| - 1]), c.key, c.expiresAt, c.now).0
  }

  lemma {:induction false} RowSurvivesIff(rows: Rows, key: Bytes, calls: seq<Call>)
    requires key in rows && forall c :: c in calls ==> c.key != key
    ensures key in AfterCalls(rows, calls) <==> forall c :: c in calls ==> c.now <= rows[key]
    ensures key in AfterCalls(rows, calls) ==> AfterCalls(rows, calls)[key] == rows[key]
    decreases |calls|
  {
    if |calls| > 0 {
      var front, c := calls[..|calls| - 1], calls[|calls| - 1];
      RowSurvivesIff(rows, key, front);
      assert forall d :: d in calls <==> d in front || d == c;
    }
  }

  /**
    Whatever the clock does, a key once claimed can be claimed again exactly when some call
    since, or this one, came after the first claim's expiry.
   */
  lemma {:induction false} ClaimedAgainIff(rows: Rows, first: Call, calls: seq<Call>, again: Call)
    requires ClaimRow(rows, first.key, first.expiresAt, first.now).1
    requires again.key == first.key && forall c :: c in calls ==> c.key != first.key
    ensures ClaimRow(AfterCalls(ClaimRow(rows, first.key, first.expiresAt, first.now).0, calls), again.key, again.expiresAt, again.now).1
      <==> again.now > first.expiresAt || exists c :: c in calls && c.now > first.expiresAt
  {
    RowSurvivesIff(ClaimRow(rows, first.key, first.expiresAt, first.now).0, first.key, calls);
  }

  /** A clock set back after a later call lets a request that is still in time be claimed twice. */
  lemma {:induction false} ClockSetBackReplays(key: Bytes, other: Bytes)
    requires key != other
    ensures var first := ClaimRow(map[], key, 20, 10);
            var later := ClaimRow(first.0, other, 40, 30);
            var again := ClaimRow(later.0, key, 20, 15);
            first.1 && later.1 && again.1
  {
  }

  /** A key used again once its request has expired is taken, though a log that never forgets holds it. */
  lemma {:induction false} ReusedKeyIsForgotten(key: Bytes)
    ensures var first := ClaimRow(map[], key, 20, 10);
            var second := ClaimRow(first.0, key, 60, 40);
            first.1 && second.1
  {
  }

  // ---------- whole runs ----------

  datatype Event =
    | Arrives(frame: WireFrame, frameSize: nat, endpoint: Bytes, communityRoot: Bytes, now: I64, fails: bool)
    | Restarts

  /** The clock never runs backwards from `start`. */
  predicate InOrder(events: seq<Event>, start: int) {
    && (forall i :: 0 <= i < |events| && events[i].Arrives? ==> start <= events[i].now)
    && forall i, j :: 0 <= i < j < |events| && events[i].Arrives? && events[j].Arrives? ==> events[i].now <= events[j].now
  }

  /** Event `j` was accepted under this key and has not expired. */
  predicate Earlier(events: seq<Event>, verdicts: seq<bool>, j: nat, key: Bytes, now: int)
    requires j < |verdicts| && j < |events|
  {
    && verdicts[j] && events[j].Arrives? && ReplayKey(events[j].frame.request) == key
    && events[j].frame.request.expiresAt >= now
  }

  /** An earlier frame under the same key was accepted and has not expired. */
  predicate Blocked(events: seq<Event>, verdicts: seq<bool>, i: nat)
    requires i < |events| && i <= |verdicts| && events[i].Arrives?
  {
    exists j :: 0 <= j < i && Earlier(events, verdicts, j, ReplayKey(events[i].frame.request), events[i].now)
  }

  ghost function AcceptedIn(events: seq<Event>, verdicts: seq<bool>): seq<Accepted>
    requires |verdicts| <= |events|
    requires forall i :: 0 <= i < |verdicts| && verdicts[i] ==> events[i].Arrives?
  {
    if |verdicts| == 0 then []
    else
      var n := |verdicts| - 1;
      AcceptedIn(events, verdicts[..n]) + if verdicts[n] then [Accepted(events[n].frame, events[n].now)] else []
  }

  lemma {:induction false} HeldIsEarlierVerdict(events: seq<Event>, verdicts: seq<bool>, key: Bytes, now: int)
    requires |verdicts| <= |events|
    requires forall i :: 0 <= i < |verdicts| && verdicts[i] ==> events[i].Arrives?
    ensures Held(AcceptedIn(events, verdicts), key, now) <==>
              exists j :: 0 <= j < |verdicts| && Earlier(events, verdicts, j, key, now)
    decreases |verdicts|
  {
    hide ReplayKey;
    if |verdicts| > 0 {
      var n := |verdicts| - 1;
      var front := AcceptedIn(events, verdicts[..n]);
      HeldIsEarlierVerdict(events, verdicts[..n], key, now);
      if verdicts[n] {
        HeldSnoc(front, Accepted(events[n].frame, events[n].now), key, now);
      } else {
        assert AcceptedIn(events, verdicts) == front;
      }
      forall j | 0 <= j <= n && Earlier(events, verdicts, j, key, now) ensures Held(AcceptedIn(events, verdicts), key, now) {
        assert j < n ==> Earlier(events, verdicts[..n], j, key, now);
      }
      if Held(front, key, now) {
        var j :| 0 <= j < n && Earlier(events, verdicts[..n], j, key, now);
        assert Earlier(events, verdicts, j, key, now);
      } else if Held(AcceptedIn(events, verdicts), key, now) {
        assert Earlier(events, verdicts, n, key, now);
      }
    }
  }

  lemma {:induction false} HeldSnoc(log: seq<Accepted>, e: Accepted, key: Bytes, now: int)
    ensures Held(log + [e], key, now) <==> Held(log, key, now) || (e.Key() == key && e.ExpiresAt() >= now)
  {
    hide ReplayKey;
    var longer := log + [e];
    if Held(log, key, now) {
      var i :| 0 <= i < |log| && log[i].Key() == key && log[i].ExpiresAt() >= now;
      assert longer[i] == log[i];
    }
    assert longer[|log|] == e;
  }

  predicate SameRequest(a: Event, b: Event) {
    a.Arrives? && b.Arrives? && a.frame.request == b.frame.request
  }

  predicate Passes(hash: Hash, e: Event) {
    e.Arrives? && !e.fails && Screen(hash, e.frame, e.frameSize, e.endpoint, e.communityRoot, e.now).Ok?
  }

  /** A frame is accepted exactly when it passes every check and no earlier accepted one blocks it. */
  predicate Right(hash: Hash, events: seq<Event>, verdicts: seq<bool>, i: nat)
    requires i < |events| && i < |verdicts|
  {
    verdicts[i] <==> Passes(hash, events[i]) && !Blocked(events, verdicts, i)
  }

  /** A new process opens the database file the last one left. */
  method Restart(table: ReplayTable) returns (next: ReplayTable)
    requires table.Valid()
    ensures fresh(next) && next.Valid() && next.hash == table.hash
    ensures next.rows == table.rows && next.log == table.log && next.clock == table.clock
  {
    next := new ReplayTable.Reopen(table.hash, table.rows, table.log, table.clock);
  }

  /** Which frames a run accepts, restarts and failed transactions included; no request is ever accepted twice. */
  method Run(hash: Hash, start: I64, events: seq<Event>) returns (verdicts: seq<bool>)
    requires InOrder(events, start)
    ensures |verdicts| == |events|
    ensures forall i :: 0 <= i < |events| ==> Right(hash, events, verdicts, i)
    ensures forall i, j :: 0 <= i < j < |events| && verdicts[i] && verdicts[j] ==> !SameRequest(events[i], events[j])
  {
    hide Screen, ReplayKey, Held, LogOk, Caches, Right, SameRequest;
    var table := new ReplayTable(hash, start);
    verdicts := [];
    for i := 0 to |events|
      invariant |verdicts| == i && table.Valid() && fresh(table) && table.hash == hash
      invariant forall k :: 0 <= k < i && verdicts[k] ==> events[k].Arrives?
      invariant table.log == AcceptedIn(events, verdicts)
      invariant forall k :: i <= k < |events| && events[k].Arrives? ==> table.clock <= events[k].now
      invariant forall k :: 0 <= k < i ==> Right(hash, events, verdicts, k)
    {
      ghost var before := verdicts;
      match events[i] {
        case Restarts =>
          table := Restart(table);
          verdicts := verdicts + [false];
        case Arrives(frame, frameSize, endpoint, communityRoot, now, fails) =>
          HeldIsEarlierVerdict(events, verdicts, ReplayKey(frame.request), now);
          var r := table.ValidateFrame(frame, frameSize, endpoint, communityRoot, now, fails);
          verdicts := verdicts + [r.Ok?];
      }
      RightExtends(hash, events, before, verdicts[i]);
      assert before + [verdicts[i]] == verdicts;
    }
    NoneTwice(hash, events, verdicts);
  }

  lemma {:induction false} NoneTwice(hash: Hash, events: seq<Event>, verdicts: seq<bool>)
    requires |verdicts| == |events| && forall i :: 0 <= i < |events| ==> Right(hash, events, verdicts, i)
    ensures forall i, j :: 0 <= i < j < |events| && verdicts[i] && verdicts[j] ==> !SameRequest(events[i], events[j])
  {
    hide Screen, ReplayKey, Right, SameRequest;
    forall i, j | 0 <= i < j < |events| && verdicts[i] && verdicts[j] ensures !SameRequest(events[i], events[j]) {
      NotTwice(hash, events, verdicts, i, j);
    }
  }

  lemma {:induction false} NotTwice(hash: Hash, events: seq<Event>, verdicts: seq<bool>, i: nat, j: nat)
    requires |verdicts| == |events| && i < j < |events| && verdicts[i] && verdicts[j]
    requires Right(hash, events, verdicts, i) && Right(hash, events, verdicts, j)
    ensures !SameRequest(events[i], events[j])
  {
    hide Screen, ReplayKey, Blocked;
    if SameRequest(events[i], events[j]) {
      EarlierBlocks(hash, events, verdicts, i, j);
    }
  }

  /** An accepted frame blocks the same request wherever it would still pass. */
  lemma {:induction false} EarlierBlocks(hash: Hash, events: seq<Event>, verdicts: seq<bool>, i: nat, j: nat)
    requires |verdicts| == |events| && i < j < |events| && verdicts[i]
    requires SameRequest(events[i], events[j]) && Passes(hash, events[j])
    ensures Blocked(events, verdicts, j)
  {
    hide Screen, ReplayKey, Signed, LifetimeOk;
    ScreenedIsSigned(hash, events[j].frame, events[j].frameSize, events[j].endpoint, events[j].communityRoot, events[j].now);
    assert Earlier(events, verdicts, i, ReplayKey(events[j].frame.request), events[j].now);
  }

  lemma {:induction false} RightExtends(hash: Hash, events: seq<Event>, before: seq<bool>, v: bool)
    requires |before| < |events| && forall k :: 0 <= k < |before| ==> Right(hash, events, before, k)
    requires v <==> Passes(hash, events[|before|]) && !Blocked(events, before, |before|)
    ensures forall k :: 0 <= k <= |before| ==> Right(hash, events, before + [v], k)
  {
    hide Screen, ReplayKey, Blocked;
    BlockedStays(events, before, before + [v]);
    forall k | 0 <= k <= |before| ensures Right(hash, events, before + [v], k) {
      if k < |before| {
        assert Right(hash, events, before, k);
      }
      if events[k].Arrives? {
        assert Blocked(events, before, k) <==> Blocked(events, before + [v], k);
      }
    }
  }

  /** Later verdicts do not change what blocked an earlier frame. */
  lemma {:induction false} BlockedStays(events: seq<Event>, before: seq<bool>, verdicts: seq<bool>)
    requires before <= verdicts && |verdicts| <= |events|
    ensures forall k :: 0 <= k < |events| && k <= |before| && events[k].Arrives? ==>
              (Blocked(events, before, k) <==> Blocked(events, verdicts, k))
  {
    hide ReplayKey;
    forall k, j | 0 <= j < k < |events| && k <= |before| && events[k].Arrives?
      ensures Earlier(events, before, j, ReplayKey(events[k].frame.request), events[k].now)
         <==> Earlier(events, verdicts, j, ReplayKey(events[k].frame.request), events[k].now)
    {
    }
  }
}
