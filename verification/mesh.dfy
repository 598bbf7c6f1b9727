/** Storage nodes behind their active flag, and the in-memory mesh that places copies on them. */
module Mesh {
  import opened Wrappers
  import opened ByteStrings
  import opened Store

  datatype NodeError = Offline | Oversized | Storage(error: StoreError)

  const MAX_OBJECT_BYTES: nat := 4 * 1024 * 1024 + 128 * 1024

  class StorageNode {
    const nodeId: string
    const failureDomain: string
    const store: ObjectStore
    var active: bool

    constructor (nodeId: string, failureDomain: string, store: ObjectStore)
      ensures this.nodeId == nodeId && this.failureDomain == failureDomain && this.store == store && active
    {
      this.nodeId, this.failureDomain, this.store, active := nodeId, failureDomain, store, true;
    }

    /** A valid copy of the object is on this node's disk. */
    ghost predicate Holds(c: string)
      reads store
    {
      c in store.Blobs()
    }

    /** A read of the object succeeds here. */
    ghost predicate Answers(c: string)
      reads this, store
    {
      active && Holds(c) && c in store.rows && store.rows[c] == |store.Blobs()[c]|
    }

    /** Nothing fails here, and the node takes these bytes under this name. */
    ghost predicate Takes(c: string, bytes: Bytes)
      reads this, store
    {
      && active && |bytes| <= 4_325_376 && store.steady && store.Synced()
      && store.hash(bytes) == c && IsCid(c) && Total(store.rows - {c}) + |bytes| <= store.quota
    }

    method SetActive(value: bool)
      modifies `active
      ensures active == value
    {
      active := value;
    }

    method Put(c: string, bytes: Bytes, readFails: bool) returns (r: Result<(), NodeError>)
      modifies store
      ensures !active ==> r == Err(Offline)
      ensures active && |bytes| > MAX_OBJECT_BYTES ==> r == Err(Oversized)
      ensures !active || |bytes| > MAX_OBJECT_BYTES ==> store.Now() == old(store.Now())
      ensures r.Ok? ==> Answers(c) && store.Blobs() == old(store.Blobs())[c := bytes]
      ensures old(store.steady && store.Synced()) ==> (r.Ok? <==> old(Takes(c, bytes)))
      ensures old(Takes(c, bytes)) ==> r.Ok?
      ensures store.steady == old(store.steady)
    {
      if !active {
        return Err(Offline);
      }
      if |bytes| > MAX_OBJECT_BYTES {
        return Err(Oversized);
      }
      var stored := store.Put(c, bytes, readFails);
      r := if stored.Ok? then Ok(()) else Err(Storage(stored.error));
    }

    method Get(c: string) returns (r: Result<Bytes, NodeError>)
      ensures !active ==> r == Err(Offline)
      ensures r.Ok? <==> Answers(c)
      ensures r.Ok? ==> r.value == store.Blobs()[c]
    {
      if !active {
        return Err(Offline);
      }
      var found := store.Get(c);
      r := match found case Ok(bytes) => Ok(bytes) case Err(e) => Err(Storage(e));
    }

    method Audit(c: string) returns (r: Result<bool, NodeError>)
      ensures r == if active then Ok(Answers(c)) else Err(Offline)
    {
      if !active {
        return Err(Offline);
      }
      var found := store.Get(c);
      r := Ok(found.Ok? && store.hash(found.value) == c);
    }

    method Delete(c: string) returns (r: Result<bool, NodeError>)
      modifies store
      ensures !active ==> r == Err(Offline) && store.Now() == old(store.Now())
      ensures r.Ok? ==> !Holds(c) && store.Blobs() == old(store.Blobs()) - {c}
      ensures old(store.steady) ==> (r.Ok? <==> active && IsCid(c))
    {
      if !active {
        return Err(Offline);
      }
      var deleted := store.Delete(c);
      r := match deleted case Ok(there) => Ok(there) case Err(e) => Err(Storage(e));
    }
  }

  // ---------- placement records ----------

  datatype Placement = Placement(objectCid: string, nodeId: string, failureDomain: string, healthy: bool)

  datatype MeshError = InsufficientNodes | NoHealthyReplica | NodeFailed(error: NodeError)

  predicate Current(p: Placement, c: string) {
    p.objectCid == c && p.healthy
  }

  /** The nodes that healthy records of an object name, once for each record. */
  function HealthyIds(placements: seq<Placement>, c: string): seq<string> {
    if |placements| == 0 then []
    else
      var p := placements[|placements| - 1];
      HealthyIds(placements[..|placements| - 1], c) + if Current(p, c) then [p.nodeId] else []
  }

  /** No two records are of the same object on the same node. */
  predicate OneRecordEach(placements: seq<Placement>, c: string) {
    forall i, j :: 0 <= i < j < |placements| && placements[i].objectCid == placements[j].objectCid == c ==>
                     placements[i].nodeId != placements[j].nodeId
  }

  predicate Distinct(ids: seq<string>) {
    forall i, j :: 0 <= i < j < |ids| ==> ids[i] != ids[j]
  }

  /** The records differ in nothing but their flags. */
  predicate SameRecords(a: seq<Placement>, b: seq<Placement>) {
    |a| == |b| && forall i :: 0 <= i < |a| ==> a[i] == b[i].(healthy := a[i].healthy)
  }

  lemma {:induction false} NoIds(c: string)
    ensures HealthyIds([], c) == []
  {
  }

  lemma {:induction false} OneMoreId(placements: seq<Placement>, k: nat, c: string)
    requires k < |placements|
    ensures |HealthyIds(placements[..k + 1], c)| == |HealthyIds(placements[..k], c)| + if Current(placements[k], c) then 1 else 0
  {
    assert placements[..k + 1][..k] == placements[..k];
  }

  /** The first `k` records of the object are healthy as the answering names say; nothing else has changed. */
  ghost predicate Audited(was: seq<Placement>, now: seq<Placement>, k: nat, c: string, answering: iset<string>) {
    && |now| == |was| && k <= |was|
    && (forall j :: 0 <= j < k ==> now[j] == if was[j].objectCid == c then was[j].(healthy := was[j].nodeId in answering) else was[j])
    && (forall j :: k <= j < |was| ==> now[j] == was[j])
  }

  /** The first node of this name, or past the end. */
  function IndexOf(nodes: seq<StorageNode>, id: string): (i: nat)
    ensures i <= |nodes|
    ensures i < |nodes| ==> nodes[i].nodeId == id
    ensures forall j :: 0 <= j < i ==> nodes[j].nodeId != id
  {
    if |nodes| == 0 then 0
    else if IndexOf(nodes[..|nodes| - 1], id) < |nodes| - 1 then IndexOf(nodes[..|nodes| - 1], id)
    else if nodes[|nodes| - 1].nodeId == id then |nodes| - 1
    else |nodes|
  }

  class InMemoryMesh {
    const nodes: seq<StorageNode>
    var placements: seq<Placement>

    ghost function Stores(): set<ObjectStore> {
      set n | n in nodes :: n.store
    }

    /** No two nodes share a disk. */
    ghost predicate Apart() {
      forall i, j :: 0 <= i < j < |nodes| ==> nodes[i].store != nodes[j].store
    }

    ghost predicate HoldsAt(i: int, c: string)
      reads Stores()
    {
      0 <= i < |nodes| && nodes[i].Holds(c)
    }

    /** The nodes with a valid copy on disk. */
    ghost function Holding(c: string): set<int>
      reads Stores()
    {
      set i | 0 <= i < |nodes| && HoldsAt(i, c)
    }

    ghost predicate AnswersAt(i: int, c: string)
      reads nodes, Stores()
    {
      0 <= i < |nodes| && nodes[i].Answers(c)
    }

    /** The nodes that would answer a read. */
    ghost function Serving(c: string): (serving: set<int>)
      reads nodes, Stores()
      ensures serving <= Holding(c)
    {
      set i | 0 <= i < |nodes| && AnswersAt(i, c)
    }

    /** The node a record names answers a read. */
    ghost predicate Answering(id: string, c: string)
      reads nodes, Stores()
    {
      IndexOf(nodes, id) < |nodes| && nodes[IndexOf(nodes, id)].Answers(c)
    }

    /** Every healthy record of the object names a node that holds it. */
    ghost predicate Truthful(c: string)
      reads `placements, Stores()
    {
      forall k :: 0 <= k < |placements| && Current(placements[k], c) ==> NamedBy(placements[k].nodeId, Holding(c))
    }

    /** One of these nodes has this name. */
    ghost predicate NamedBy(id: string, holders: set<int>) {
      exists i :: i in holders && 0 <= i < |nodes| && nodes[i].nodeId == id
    }

    constructor (nodes: seq<StorageNode>)
      ensures this.nodes == nodes && placements == []
    {
      this.nodes, placements := nodes, [];
    }

    /** Looks up the copy one record names. */
    method AuditOne(id: string, c: string) returns (healthy: bool)
      ensures healthy <==> Answering(id, c)
    {
      var i := IndexOf(nodes, id);
      healthy := false;
      if i < |nodes| {
        var audit := nodes[i].Audit(c);
        healthy := audit == Ok(true);
      }
    }

    /** Looks every copy of one object up again; afterwards a record is healthy exactly when its node answers. */
    method AuditAll(c: string) returns (successes: nat)
      modifies `placements
      ensures SameRecords(old(placements), placements)
      ensures forall k :: 0 <= k < |placements| ==>
                placements[k].healthy == if placements[k].objectCid == c then Answering(placements[k].nodeId, c) else old(placements[k].healthy)
      ensures Truthful(c) && successes == |HealthyIds(placements, c)|
    {
      hide NamedBy, Holding, HealthyIds;
      ghost var answering := iset id: string | Answering(id, c);
      successes := 0;
      NoIds(c);
      for k := 0 to |placements|
        invariant Audited(old(placements), placements, k, c, answering)
        invariant successes == |HealthyIds(placements[..k], c)|
      {
        ghost var before := placements;
        if placements[k].objectCid == c {
          var healthy := AuditOne(placements[k].nodeId, c);
          assert healthy <==> placements[k].nodeId in answering;
          placements := placements[k := placements[k].(healthy := healthy)];
          successes := successes + if healthy then 1 else 0;
        }
        assert placements[..k] == before[..k];
        OneMoreId(placements, k, c);
      }
      assert placements[..|placements|] == placements;
      forall j | 0 <= j < |placements| && Current(placements[j], c) ensures NamedBy(placements[j].nodeId, Holding(c)) {
        AnsweringHolds(placements[j].nodeId, c);
      }
    }

    lemma {:induction false} AnsweringHolds(id: string, c: string)
      requires Answering(id, c)
      ensures NamedBy(id, Holding(c))
    {
      assert HoldsAt(IndexOf(nodes, id), c);
    }

    /** The node a record names answers with these bytes. */
    ghost predicate Gives(id: string, c: string, bytes: Bytes)
      reads nodes, Stores()
    {
      Answering(id, c) && bytes == nodes[IndexOf(nodes, id)].store.Blobs()[c]
    }

    /** Reads the copy one record names, if its node answers. */
    method ReadFrom(id: string, c: string) returns (r: Option<Bytes>)
      ensures r.Some? <==> Answering(id, c)
      ensures r.Some? ==> Gives(id, c, r.value)
    {
      var i := IndexOf(nodes, id);
      r := None;
      if i < |nodes| {
        var found := nodes[i].Get(c);
        if found.Ok? && nodes[i].store.hash(found.value) == c {
          r := Some(found.value);
        }
      }
    }

    /** Reads the object from the first healthy record whose node answers; records passed over are marked. */
    method Restore(c: string) returns (r: Result<Bytes, MeshError>)
      modifies `placements
      ensures SameRecords(old(placements), placements)
      ensures forall k :: 0 <= k < |placements| && placements[k] != old(placements[k]) ==>
                Current(old(placements[k]), c) && !placements[k].healthy && !Answering(placements[k].nodeId, c)
      ensures r.Ok? <==> exists k :: 0 <= k < |placements| && Current(old(placements[k]), c) && Answering(placements[k].nodeId, c)
      ensures r.Ok? ==> exists k :: 0 <= k < |placements| && Current(placements[k], c) && Gives(placements[k].nodeId, c, r.value)
      ensures r.Err? ==> r.error == NoHealthyReplica && HealthyIds(placements, c) == []
      ensures old(AllAnswer(c)) ==> r.Ok? && placements == old(placements)
    {
      hide IndexOf, HealthyIds, AnswersAt;
      ghost var answering := iset id: string | Answering(id, c);
      for k := 0 to |placements|
        invariant SameRecords(old(placements), placements)
        invariant forall j :: k <= j < |placements| ==> placements[j] == old(placements[j])
        invariant forall j :: 0 <= j < k ==> !Current(placements[j], c)
        invariant forall j :: 0 <= j < k ==>
                    (placements[j].healthy <==> old(placements[j].healthy) && placements[j].objectCid != c)
        invariant forall j :: 0 <= j < k && Current(old(placements[j]), c) ==> placements[j].nodeId !in answering
      {
        if Current(placements[k], c) {
          var found := ReadFrom(placements[k].nodeId, c);
          assert found.Some? <==> placements[k].nodeId in answering;
          if found.Some? {
            return Ok(found.value);
          }
          placements := placements[k := placements[k].(healthy := false)];
        }
      }
      NoneHealthy(placements, c);
      r := Err(NoHealthyReplica);
    }

    /** There is a healthy record of the object, and the node of each answers a read. */
    ghost predicate AllAnswer(c: string)
      reads this, nodes, Stores()
    {
      && (exists k :: 0 <= k < |placements| && Current(placements[k], c))
      && (forall k :: 0 <= k < |placements| && Current(placements[k], c) ==> Answering(placements[k].nodeId, c))
    }

    lemma {:induction false} AllTakeRest(i: nat, c: string, bytes: Bytes)
      ensures AllTake(i, c, bytes) ==> AllTake(i + 1, c, bytes)
    {
    }

    /** A put that succeeds on one node leaves every copy where it was and adds one. */
    method PutAt(i: nat, c: string, bytes: Bytes, readFails: bool) returns (r: Result<(), NodeError>)
      requires Apart() && i < |nodes|
      modifies nodes[i].store
      ensures r.Ok? ==> old(Holding(c)) + {i} <= Holding(c) && old(Serving(c)) + {i} <= Serving(c)
      ensures nodes[i].active && old(AllTake(i, c, bytes)) ==> r.Ok? && AllTake(i + 1, c, bytes)
    {
      hide StorageNode.Takes, ValidBlobs;
      r := nodes[i].Put(c, bytes, readFails);
      assert r.Ok? ==> HoldsAt(i, c) && forall j :: old(HoldsAt(j, c)) ==> HoldsAt(j, c);
      assert r.Ok? ==> AnswersAt(i, c) && forall j :: old(AnswersAt(j, c)) ==> AnswersAt(j, c);
    }

    /** The failure domains with a valid copy. */
    ghost function HoldingDomains(c: string): set<string>
      reads Stores()
    {
      set i | i in Holding(c) :: nodes[i].failureDomain
    }

    ghost function ActiveDomains(): set<string>
      reads nodes
    {
      set n | n in nodes && n.active :: n.failureDomain
    }

    /** Nothing fails, and every active node from the `k`-th on takes the object. */
    ghost predicate AllTake(k: nat, c: string, bytes: Bytes)
      reads nodes, Stores()
    {
      forall j :: k <= j < |nodes| && nodes[j].active ==> nodes[j].Takes(c, bytes)
    }

    /** The record is healthy and of a node that holds the object in the domain it says. */
    ghost predicate Placed(p: Placement, c: string, holders: set<int>) {
      Current(p, c) && exists i :: i in holders && 0 <= i < |nodes| && nodes[i].nodeId == p.nodeId && nodes[i].failureDomain == p.failureDomain
    }

    /**
      Puts one copy in each of the first `target` failure domains that have an active node.
      Success leaves copies in `target` domains and one truthful record for each; running out
      of nodes means there were not that many domains to be had.
     */
    method Replicate(hash: Bytes -> string, bytes: Bytes, target: nat,
            readFails: bool) returns (r: Result<string, MeshError>)
      requires Apart()
      modifies `placements, Stores()
      ensures old(placements) <= placements
      ensures r.Ok? ==>
                && r.value == hash(bytes) && |placements| == |old(placements)| + target
                && (forall k :: |old(placements)| <= k < |placements| ==> Placed(placements[k], r.value, Serving(r.value)))
                && Distinct(Domains(placements[|old(placements)|..])) && |HoldingDomains(r.value)| >= target
      ensures r == Err(InsufficientNodes) ==> target == 0 || |ActiveDomains()| < target
      ensures r.Ok? ==> 0 < target <= |ActiveDomains()|
      ensures old(AllTake(0, hash(bytes), bytes)) ==> (r.Ok? <==> 0 < target <= |ActiveDomains()|)
    {
      hide Holding, Serving, HoldingDomains, Distinct, Placed, ActiveDomains, Domains, AllTake;
      var c := hash(bytes);
      var domains: seq<string> := [];
      DistinctEmpty();
      NoDomains();
      assert placements[|placements|..] == [];
      for k := 0 to |nodes|
        invariant old(placements) <= placements && |placements| == |old(placements)| + |domains|
        invariant forall j :: |old(placements)| <= j < |placements| ==> Placed(placements[j], c, Serving(c))
        invariant Domains(placements[|old(placements)|..]) == domains && Distinct(domains)
        invariant target > 0 ==> |domains| < target
        invariant forall j :: 0 <= j < k && nodes[j].active ==> nodes[j].failureDomain in domains
        invariant forall d :: d in domains ==> d in ActiveDomains()
        invariant old(AllTake(0, c, bytes)) ==> AllTake(k, c, bytes)
      {
        AllTakeRest(k, c, bytes);
        if nodes[k].active && nodes[k].failureDomain !in domains {
          ghost var serving := Serving(c);
          var put := PutAt(k, c, bytes, readFails);
          if put.Err? {
            return Err(NodeFailed(put.error));
          }
          ghost var before := placements[|old(placements)|..];
          var record := Placement(c, nodes[k].nodeId, nodes[k].failureDomain, true);
          placements := placements + [record];
          ActiveHere(k);
          domains := domains + [nodes[k].failureDomain];
          assert placements[|old(placements)|..] == before + [record];
          DomainsGrow(before, record);
          forall j | |old(placements)| <= j < |placements| ensures Placed(placements[j], c, Serving(c)) {
            PlacedGrows(placements[j], c, serving, Serving(c), k);
          }
          if |domains| == target {
            PlacedDomains(placements[|old(placements)|..], c);
            DistinctCount(domains, ActiveDomains());
            return Ok(c);
          }
        }
      }
      ActiveCovered(domains);
      r := Err(InsufficientNodes);
    }

    lemma {:induction false} ActiveHere(k: nat)
      requires k < |nodes| && nodes[k].active
      ensures nodes[k].failureDomain in ActiveDomains()
    {
    }

    lemma {:induction false} NoDomains()
      ensures Domains([]) == []
    {
    }

    lemma {:induction false} PlacedGrows(p: Placement, c: string, holders: set<int>, more: set<int>, k: nat)
      requires k < |nodes| && holders + {k} <= more
      requires Placed(p, c, holders) || p == Placement(c, nodes[k].nodeId, nodes[k].failureDomain, true)
      ensures Placed(p, c, more)
    {
      if Placed(p, c, holders) {
        var i :| i in holders && 0 <= i < |nodes| && nodes[i].nodeId == p.nodeId && nodes[i].failureDomain == p.failureDomain;
        assert i in more;
      } else {
        assert k in more;
      }
    }

    lemma {:induction false} PlacedDomains(records: seq<Placement>, c: string)
      requires forall p :: p in records ==> Placed(p, c, Serving(c))
      requires Distinct(Domains(records))
      ensures |HoldingDomains(c)| >= |records|
    {
      var domains := Domains(records);
      forall d | d in domains ensures d in HoldingDomains(c) {
        var k :| 0 <= k < |records| && domains[k] == d;
        assert records[k] in records;
      }
      DistinctCount(domains, HoldingDomains(c));
    }

    lemma {:induction false} ActiveCovered(domains: seq<string>)
      requires forall j :: 0 <= j < |nodes| && nodes[j].active ==> nodes[j].failureDomain in domains
      ensures |ActiveDomains()| <= |domains|
    {
      forall d | d in ActiveDomains() ensures d in domains {
        var n :| n in nodes && n.active && n.failureDomain == d;
      }
      CoveredCount(domains, ActiveDomains());
    }

    /** Each id names one of these nodes. */
    ghost predicate Named(ids: seq<string>, holders: set<int>) {
      forall id :: id in ids ==> NamedBy(id, holders)
    }

    /** The records are truthful exactly when their list of ids names holders. */
    lemma {:induction false} TruthfulIds(c: string)
      ensures Truthful(c) <==> Named(HealthyIds(placements, c), Holding(c))
    {
      hide NamedBy, Holding;
      IdsAreCurrent(placements, c);
    }

    lemma {:induction false} NamedGrows(ids: seq<string>, holders: set<int>, i: nat, more: set<int>)
      requires Named(ids, holders) && holders + {i} <= more && i < |nodes|
      ensures Named(ids + [nodes[i].nodeId], more)
    {
      forall id | id in ids + [nodes[i].nodeId] ensures NamedBy(id, more) {
        if id == nodes[i].nodeId {
          assert i in more;
        } else {
          assert NamedBy(id, holders);
        }
      }
    }

    /** The active nodes' names that are not on a list. */
    ghost function Spare(ids: seq<string>): set<string>
      reads nodes
    {
      set n | n in nodes && n.active && n.nodeId !in ids :: n.nodeId
    }

    /** Spare names, each once. */
    ghost predicate Added(ids: seq<string>, added: seq<string>)
      reads nodes
    {
      Distinct(added) && forall id :: id in added ==> id in Spare(ids)
    }

    lemma {:induction false} AddNone(ids: seq<string>)
      ensures Added(ids, [])
    {
      DistinctEmpty();
    }

    lemma {:induction false} AddOne(ids: seq<string>, added: seq<string>, i: nat)
      requires Added(ids, added) && i < |nodes| && nodes[i].active && nodes[i].nodeId !in ids + added
      ensures Added(ids, added + [nodes[i].nodeId])
    {
      DistinctGrows(added, nodes[i].nodeId);
    }

    lemma {:induction false} AddedCount(ids: seq<string>, added: seq<string>)
      requires Added(ids, added)
      ensures |added| <= |Spare(ids)|
    {
      DistinctCount(added, Spare(ids));
    }

    lemma {:induction false} SpareCovered(ids: seq<string>, added: seq<string>)
      requires forall j :: 0 <= j < |nodes| && nodes[j].active ==> nodes[j].nodeId in ids + added
      ensures |Spare(ids)| <= |added|
    {
      CoveredCount(added, Spare(ids));
    }

    /** Puts copies on further active nodes until `target` names are on the list. */
    method TopUp(c: string, source: Bytes, target: nat, readFails: bool) returns (r: Result<nat, MeshError>)
      requires Apart()
      modifies `placements, Stores()
      ensures old(placements) <= placements && Fresh(placements, |old(placements)|, c)
      ensures r.Ok? ==> r.value == |HealthyIds(placements, c)| >= target
      ensures r.Ok? && old(Truthful(c)) ==> Truthful(c)
      ensures Distinct(HealthyIds(old(placements), c)) ==> Distinct(HealthyIds(placements, c))
      ensures r == Err(InsufficientNodes) ==> forall n :: n in nodes && n.active ==> n.nodeId in HealthyIds(placements, c)
      ensures |HealthyIds(old(placements), c)| >= target ==>
                r.Ok? && placements == old(placements) && Holding(c) == old(Holding(c))
      ensures r.Ok? ==> target <= |HealthyIds(old(placements), c)| + |Spare(HealthyIds(old(placements), c))|
      ensures old(AllTake(0, c, source)) ==>
                (r.Ok? <==> target <= |HealthyIds(old(placements), c)| + |Spare(HealthyIds(old(placements), c))|)
    {
      hide Fresh, Distinct, HealthyIds, Truthful, Named, NamedBy, Holding, Serving, Apart, Current, AllTake, Spare, Added;
      var healthyNodes := HealthyIds(placements, c);
      ghost var listed, added: seq<string> := healthyNodes, [];
      AddNone(listed);
      TruthfulIds(c);
      NothingFresh(placements, c);
      for i := 0 to |nodes|
        invariant old(placements) <= placements && Fresh(placements, |old(placements)|, c)
        invariant healthyNodes == HealthyIds(placements, c)
        invariant Distinct(HealthyIds(old(placements), c)) ==> Distinct(healthyNodes)
        invariant old(Truthful(c)) ==> Named(healthyNodes, Holding(c))
        invariant forall j :: 0 <= j < i && nodes[j].active ==> nodes[j].nodeId in healthyNodes
        invariant healthyNodes == listed + added && Added(listed, added)
        invariant old(AllTake(0, c, source)) ==> AllTake(i, c, source)
        invariant |HealthyIds(old(placements), c)| >= target ==> placements == old(placements) && Holding(c) == old(Holding(c))
      {
        if |healthyNodes| >= target {
          break;
        }
        AllTakeRest(i, c, source);
        if nodes[i].active && nodes[i].nodeId !in healthyNodes {
          ghost var holders := Holding(c);
          var put := PutAt(i, c, source, readFails);
          if put.Err? {
            return Err(NodeFailed(put.error));
          }
          var record := Placement(c, nodes[i].nodeId, nodes[i].failureDomain, true);
          FreshGrows(placements, |old(placements)|, c, record);
          placements := placements + [record];
          if old(Truthful(c)) {
            NamedGrows(healthyNodes, holders, i, Holding(c));
          }
          AddOne(listed, added, i);
          added := added + [nodes[i].nodeId];
          healthyNodes := healthyNodes + [nodes[i].nodeId];
        }
      }
      TruthfulIds(c);
      AddedCount(listed, added);
      if |healthyNodes| < target {
        SpareCovered(listed, added);
        return Err(InsufficientNodes);
      }
      r := Ok(|healthyNodes|);
    }

    /** Nothing fails, and each active node takes whatever copy of the object a healthy record leads to. */
    ghost predicate Replenishable(c: string)
      reads this, nodes, Stores()
    {
      forall k, bytes :: 0 <= k < |placements| && Current(placements[k], c) && Gives(placements[k].nodeId, c, bytes) ==>
        AllTake(0, c, bytes)
    }

    /**
      Repairs an object up to `target` healthy records. From a table with one record for each
      node, all of them truthful, success leaves at least `target` different nodes holding it.
     */
    method Repair(c: string, target: nat, readFails: bool) returns (r: Result<nat, MeshError>)
      requires Apart()
      modifies `placements, Stores()
      ensures |placements| >= |old(placements)| && SameRecords(old(placements), placements[..|old(placements)|])
      ensures Fresh(placements, |old(placements)|, c)
      ensures r.Ok? ==> r.value == |HealthyIds(placements, c)| >= target
      ensures r.Ok? && old(Truthful(c)) ==> Truthful(c)
      ensures r.Ok? && old(Truthful(c)) && OneRecordEach(old(placements), c) ==> |Holding(c)| >= target
      ensures old(AllAnswer(c)) && |HealthyIds(old(placements), c)| >= target ==>
                r.Ok? && placements == old(placements) && Holding(c) == old(Holding(c))
      ensures old(AllAnswer(c) && Replenishable(c)) ==>
                (r.Ok? <==> target <= |HealthyIds(old(placements), c)| + |Spare(HealthyIds(old(placements), c))|)
    {
      hide OneRecordEach, Distinct, Fresh, HealthyIds, NamedBy, AllAnswer, Answering, Apart, Named, Spare, AllTake, IndexOf, Holding;
      var source := Restore(c);
      NothingFresh(placements, c);
      assert old(Truthful(c)) ==> Truthful(c) by {
        assert Holding(c) == old(Holding(c));
        assert forall k :: 0 <= k < |placements| && Current(placements[k], c) ==> placements[k] == old(placements)[k];
      }
      if source.Err? {
        return Err(source.error);
      }
      if OneRecordEach(old(placements), c) {
        OneRecordKept(old(placements), placements, c);
        OneRecordDistinct(placements, c);
      }
      r := TopUp(c, source.value, target, readFails);
      if r.Ok? && Truthful(c) && Distinct(HealthyIds(placements, c)) {
        TruthfulIds(c);
        DistinctHolders(HealthyIds(placements, c), Holding(c));
      }
    }

    lemma {:induction false} DistinctHolders(ids: seq<string>, holders: set<int>)
      requires Distinct(ids) && Named(ids, holders)
      ensures |holders| >= |ids|
      decreases |ids|
    {
      if |ids| > 0 {
        var front, last := ids[..|ids| - 1], ids[|ids| - 1];
        assert last in ids && NamedBy(last, holders);
        var i :| i in holders && 0 <= i < |nodes| && nodes[i].nodeId == last;
        forall id | id in front ensures NamedBy(id, holders - {i}) {
          assert id in ids && id != last && NamedBy(id, holders);
        }
        DistinctHolders(front, holders - {i});
      }
    }
  }

  /** From record `n` on, each is of this object, and of a node that no healthy record before it names. */
  predicate Fresh(placements: seq<Placement>, n: nat, c: string)
    requires n <= |placements|
  {
    forall k :: n <= k < |placements| ==> Current(placements[k], c) && placements[k].nodeId !in HealthyIds(placements[..k], c)
  }

  lemma {:induction false} NothingFresh(placements: seq<Placement>, c: string)
    ensures Fresh(placements, |placements|, c)
  {
  }

  lemma {:induction false} FreshGrows(placements: seq<Placement>, n: nat, c: string, p: Placement)
    requires n <= |placements| && Fresh(placements, n, c)
    requires Current(p, c) && p.nodeId !in HealthyIds(placements, c)
    ensures Fresh(placements + [p], n, c)
    ensures HealthyIds(placements + [p], c) == HealthyIds(placements, c) + [p.nodeId]
    ensures Distinct(HealthyIds(placements, c)) ==> Distinct(HealthyIds(placements + [p], c))
  {
    var longer := placements + [p];
    assert longer[..|placements|] == placements;
    forall k | n <= k < |longer| ensures Current(longer[k], c) && longer[k].nodeId !in HealthyIds(longer[..k], c) {
      assert longer[..k] == placements[..k];
      assert placements[..|placements|] == placements;
    }
  }

  /** Some record of the object names a node that answers. */
  ghost predicate Reachable(mesh: InMemoryMesh, records: seq<Placement>, c: string)
    reads mesh.nodes, mesh.Stores()
  {
    exists k :: 0 <= k < |records| && records[k].objectCid == c && mesh.Answering(records[k].nodeId, c)
  }

  /** Nothing fails, and each active node takes whatever copy of the object its records lead to. */
  ghost predicate Welcome(mesh: InMemoryMesh, records: seq<Placement>, c: string)
    reads mesh.nodes, mesh.Stores()
  {
    forall k, bytes :: 0 <= k < |records| && records[k].objectCid == c && mesh.Gives(records[k].nodeId, c, bytes) ==>
      mesh.AllTake(0, c, bytes)
  }

  /**
    An audit makes every record truthful, so a repair after it that succeeds is worth what it
    counts; and with a copy to read and nodes that take it, the repair succeeds exactly when
    there are as many active nodes as it is to reach.
   */
  method AuditThenRepair(mesh: InMemoryMesh, c: string, target: nat, readFails: bool) returns (r: Result<nat, MeshError>)
    requires mesh.Apart() && OneRecordEach(mesh.placements, c)
    modifies mesh`placements, mesh.Stores()
    ensures r.Ok? ==> |mesh.Holding(c)| >= target
    ensures old(Reachable(mesh, mesh.placements, c) && Welcome(mesh, mesh.placements, c)) ==>
              (r.Ok? <==> target <= |mesh.Spare([])|)
  {
    hide OneRecordEach, HealthyIds, Distinct, Reachable, Welcome, SameRecords, Fresh, InMemoryMesh.Answering, InMemoryMesh.AllTake,
         InMemoryMesh.Holding, InMemoryMesh.Spare, InMemoryMesh.NamedBy, InMemoryMesh.AllAnswer, InMemoryMesh.Replenishable;
    ghost var before := mesh.placements;
    var _ := mesh.AuditAll(c);
    OneRecordKept(before, mesh.placements, c);
    ghost var ready := Reachable(mesh, before, c) && Welcome(mesh, before, c);
    if ready {
      AuditedAnswer(mesh, before, c);
      AnsweringAreActive(mesh, c);
      AuditedWelcome(mesh, before, c);
    }
    r := mesh.Repair(c, target, readFails);
  }

  lemma {:induction false} AuditedWelcome(mesh: InMemoryMesh, before: seq<Placement>, c: string)
    requires SameRecords(before, mesh.placements) && Welcome(mesh, before, c)
    ensures mesh.Replenishable(c)
  {
    hide InMemoryMesh.Gives, InMemoryMesh.AllTake;
    forall k, bytes | 0 <= k < |mesh.placements| && Current(mesh.placements[k], c) && mesh.Gives(mesh.placements[k].nodeId, c, bytes)
      ensures mesh.AllTake(0, c, bytes)
    {
      assert before[k] == mesh.placements[k].(healthy := before[k].healthy);
    }
  }

  lemma {:induction false} AuditedAnswer(mesh: InMemoryMesh, before: seq<Placement>, c: string)
    requires SameRecords(before, mesh.placements) && Reachable(mesh, before, c)
    requires forall k :: 0 <= k < |mesh.placements| ==>
               mesh.placements[k].healthy == if mesh.placements[k].objectCid == c then mesh.Answering(mesh.placements[k].nodeId, c)
                                             else before[k].healthy
    ensures mesh.AllAnswer(c)
  {
    hide IndexOf, InMemoryMesh.Answering;
    var k :| 0 <= k < |before| && before[k].objectCid == c && mesh.Answering(before[k].nodeId, c);
    assert before[k] == mesh.placements[k].(healthy := before[k].healthy);
    assert Current(mesh.placements[k], c);
  }

  /** Names that all answer, each once, and the active ones not among them, are the active names. */
  lemma {:induction false} AnsweringAreActive(mesh: InMemoryMesh, c: string)
    requires mesh.AllAnswer(c) && OneRecordEach(mesh.placements, c)
    ensures var ids := HealthyIds(mesh.placements, c); |ids| + |mesh.Spare(ids)| == |mesh.Spare([])|
  {
    hide OneRecordEach, HealthyIds, Distinct;
    var ids := HealthyIds(mesh.placements, c);
    OneRecordDistinct(mesh.placements, c);
    SetSizeIff(ids);
    IdsAreCurrent(mesh.placements, c);
    forall id | id in ids ensures id in mesh.Spare([]) {
      assert mesh.nodes[IndexOf(mesh.nodes, id)] in mesh.nodes;
    }
    assert mesh.Spare(ids) == mesh.Spare([]) - (set id | id in ids);
    assert (set id | id in ids) <= mesh.Spare([]);
  }

  lemma {:induction false} IdsAreCurrent(placements: seq<Placement>, c: string)
    ensures forall id :: id in HealthyIds(placements, c) <==>
              exists k :: 0 <= k < |placements| && Current(placements[k], c) && placements[k].nodeId == id
    decreases |placements|
  {
    if |placements| > 0 {
      var front, p := placements[..|placements| - 1], placements[|placements| - 1];
      IdsAreCurrent(front, c);
      assert forall k :: 0 <= k < |front| ==> front[k] == placements[k];
    }
  }

  lemma {:induction false} OneRecordKept(a: seq<Placement>, b: seq<Placement>, c: string)
    requires SameRecords(a, b) && OneRecordEach(a, c)
    ensures OneRecordEach(b, c)
  {
    forall i, j | 0 <= i < j < |b| && b[i].objectCid == b[j].objectCid == c ensures b[i].nodeId != b[j].nodeId {
      assert a[i] == b[i].(healthy := a[i].healthy) && a[j] == b[j].(healthy := a[j].healthy);
    }
  }

  lemma {:induction false} OneRecordDistinct(placements: seq<Placement>, c: string)
    requires OneRecordEach(placements, c)
    ensures Distinct(HealthyIds(placements, c))
    decreases |placements|
  {
    if |placements| > 0 {
      var front, p := placements[..|placements| - 1], placements[|placements| - 1];
      forall i, j | 0 <= i < j < |front| && front[i].objectCid == front[j].objectCid == c ensures front[i].nodeId != front[j].nodeId {
        assert placements[i] == front[i] && placements[j] == front[j];
      }
      OneRecordDistinct(front, c);
      IdsAreCurrent(front, c);
      if Current(p, c) {
        assert p.nodeId !in HealthyIds(front, c);
      }
    }
  }

  lemma {:induction false} NoneHealthy(placements: seq<Placement>, c: string)
    requires forall k :: 0 <= k < |placements| ==> !Current(placements[k], c)
    ensures HealthyIds(placements, c) == []
    decreases |placements|
  {
    if |placements| > 0 {
      NoneHealthy(placements[..|placements| - 1], c);
    }
  }

  /** The failure domains the records say, in order. */
  function Domains(records: seq<Placement>): seq<string> {
    seq(|records|, i requires 0 <= i < |records| => records[i].failureDomain)
  }

  lemma {:induction false} DistinctEmpty()
    ensures Distinct([])
  {
  }

  lemma {:induction false} DistinctGrows(ids: seq<string>, id: string)
    requires Distinct(ids) && id !in ids
    ensures Distinct(ids + [id])
  {
  }

  lemma {:induction false} DomainsGrow(records: seq<Placement>, p: Placement)
    requires Distinct(Domains(records)) && p.failureDomain !in Domains(records)
    ensures Domains(records + [p]) == Domains(records) + [p.failureDomain]
    ensures Distinct(Domains(records + [p]))
  {
  }

  /** Different names drawn from a set are no more than it has. */
  lemma {:induction false} DistinctCount(ids: seq<string>, names: set<string>)
    requires Distinct(ids) && forall id :: id in ids ==> id in names
    ensures |ids| <= |names|
    decreases |ids|
  {
    if |ids| > 0 {
      var front, last := ids[..|ids| - 1], ids[|ids| - 1];
      assert last in ids;
      forall id | id in front ensures id in names - {last} {
        assert id in ids;
      }
      DistinctCount(front, names - {last});
    }
  }

  lemma {:induction false} CoveredCount(ids: seq<string>, names: set<string>)
    requires forall id :: id in names ==> id in ids
    ensures |names| <= |ids|
    decreases |ids|
  {
    if |ids| > 0 {
      CoveredCount(ids[..|ids| - 1], names - {ids[|ids| - 1]});
    } else {
      assert names == {};
    }
  }

  // ---------- what a count of records is worth ----------

  /** Healthy records count nodes exactly when no two of them are of one node. */
  lemma {:induction false} CountsNodesIff(placements: seq<Placement>, c: string)
    ensures |set id | id in HealthyIds(placements, c)| == |HealthyIds(placements, c)| <==> Distinct(HealthyIds(placements, c))
  {
    SetSizeIff(HealthyIds(placements, c));
  }

  lemma {:induction false} SetSizeIff(ids: seq<string>)
    ensures |set id | id in ids| <= |ids|
    ensures |set id | id in ids| == |ids| <==> Distinct(ids)
    decreases |ids|
  {
    if |ids| == 0 {
      assert (set id | id in ids) == {};
    } else {
      var front, last := ids[..|ids| - 1], ids[|ids| - 1];
      SetSizeIff(front);
      assert (set id | id in ids) == (set id | id in front) + {last};
      if last in front {
        assert (set id | id in ids) == (set id | id in front);
        var i :| 0 <= i < |front| && front[i] == last;
        assert ids[i] == ids[|ids| - 1];
      } else if Distinct(front) {
        assert Distinct(ids);
      } else {
        var i, j :| 0 <= i < j < |front| && front[i] == front[j];
        assert ids[i] == ids[j];
      }
    }
  }

  /**
    A record that repair adds to a table with one for each node is the node's second exactly
    when the node has an unhealthy one.
   */
  lemma {:induction false} RepairDuplicatesIff(placements: seq<Placement>, p: Placement, c: string)
    requires OneRecordEach(placements, c) && Current(p, c) && p.nodeId !in HealthyIds(placements, c)
    ensures !OneRecordEach(placements + [p], c) <==>
              exists k :: 0 <= k < |placements| && placements[k].objectCid == c && placements[k].nodeId == p.nodeId && !placements[k].healthy
  {
    var longer := placements + [p];
    IdsAreCurrent(placements, c);
    if k :| 0 <= k < |placements| && placements[k].objectCid == c && placements[k].nodeId == p.nodeId && !placements[k].healthy {
      assert longer[k] == placements[k] && longer[|placements|] == p;
    } else {
      forall i, j | 0 <= i < j < |longer| && longer[i].objectCid == longer[j].objectCid == c ensures longer[i].nodeId != longer[j].nodeId {
        if j == |placements| {
          assert Current(placements[i], c) || !placements[i].healthy;
        }
      }
    }
  }

  lemma {:induction false} TwoRecords(p: Placement, q: Placement, c: string)
    requires Current(p, c) && Current(q, c) && p.nodeId == q.nodeId
    ensures !OneRecordEach([p, q], c)
  {
    assert [p, q][0] == p && [p, q][1] == q;
  }

  lemma {:induction false} TwoIds(p: Placement, q: Placement, c: string)
    requires Current(p, c) && Current(q, c)
    ensures HealthyIds([p, q], c) == [p.nodeId, q.nodeId]
  {
    assert [p, q][..1] == [p] && [p][..0] == [];
    assert HealthyIds([p], c) == [p.nodeId];
  }

  lemma {:induction false} OfOnlyNode(mesh: InMemoryMesh, p: Placement, c: string)
    requires |mesh.nodes| == 1 && mesh.Placed(p, c, mesh.Serving(c))
    ensures Current(p, c) && p.nodeId == mesh.nodes[0].nodeId && mesh.Answering(p.nodeId, c)
    ensures |mesh.Holding(c)| == 1
  {
    var i :| i in mesh.Serving(c) && 0 <= i < |mesh.nodes| && mesh.nodes[i].nodeId == p.nodeId;
    assert mesh.HoldsAt(0, c);
    assert mesh.Holding(c) == {0};
  }

  lemma {:induction false} BothAnswer(mesh: InMemoryMesh, p: Placement, q: Placement, c: string)
    requires mesh.placements == [p, q] && Current(p, c) && Current(q, c) && p.nodeId == q.nodeId
    requires mesh.Answering(q.nodeId, c)
    ensures mesh.AllAnswer(c)
  {
    hide IndexOf;
    assert Current(mesh.placements[0], c);
  }

  /** On a one-node mesh a replication to one copy adds a record of that node, which answers. */
  method ReplicateToOne(mesh: InMemoryMesh, hash: Bytes -> string, bytes: Bytes, readFails: bool)
    returns (r: Result<string, MeshError>, ghost p: Placement)
    requires mesh.Apart() && |mesh.nodes| == 1
    modifies mesh`placements, mesh.Stores()
    ensures r.Ok? ==>
              && mesh.placements == old(mesh.placements) + [p] && Current(p, hash(bytes))
              && p.nodeId == mesh.nodes[0].nodeId && mesh.Answering(p.nodeId, hash(bytes))
              && |mesh.Holding(hash(bytes))| == 1
  {
    hide Domains, Distinct, Current;
    r := mesh.Replicate(hash, bytes, 1, readFails);
    p := Placement("", "", "", false);
    if r.Ok? {
      p := mesh.placements[|old(mesh.placements)|];
      OfOnlyNode(mesh, p, hash(bytes));
    }
  }

  /**
    Replicating the same bytes twice records the same node twice; a repair to two copies then
    reports two and places nothing, with one node holding the object.
   */
  method ReplicateTwiceOvercounts(mesh: InMemoryMesh, hash: Bytes -> string, bytes: Bytes, readFails: bool)
    returns (first: Result<string, MeshError>, second: Result<string, MeshError>, repaired: Result<nat, MeshError>)
    requires mesh.Apart() && |mesh.nodes| == 1 && mesh.placements == []
    modifies mesh`placements, mesh.Stores()
    ensures first.Ok? && second.Ok? ==>
              && |mesh.placements| == 2 && HealthyIds(mesh.placements, hash(bytes)) == [mesh.nodes[0].nodeId, mesh.nodes[0].nodeId]
              && !OneRecordEach(mesh.placements, hash(bytes))
              && repaired == Ok(2) && |mesh.Holding(hash(bytes))| == 1
  {
    hide OneRecordEach, HealthyIds, Fresh, Distinct, SameRecords, Current, InMemoryMesh.AllTake, InMemoryMesh.Replenishable,
         InMemoryMesh.Spare, InMemoryMesh.ActiveDomains, InMemoryMesh.Placed;
    var c := hash(bytes);
    ghost var one, two;
    repaired := Err(InsufficientNodes);
    first, one := ReplicateToOne(mesh, hash, bytes, readFails);
    second, two := ReplicateToOne(mesh, hash, bytes, readFails);
    if first.Ok? && second.Ok? {
      assert mesh.placements == [one, two];
      TwoIds(one, two, c);
      TwoRecords(one, two, c);
      BothAnswer(mesh, one, two, c);
      repaired := mesh.Repair(c, 2, readFails);
    }
  }
}
