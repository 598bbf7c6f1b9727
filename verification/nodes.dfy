/**
  A group of storage nodes seen from the vault. Each node is the map of object files on its
  disk; a file counts only while its bytes still hash to its name, which is what every read
  checks and what reopening a store lists.
 */
module Nodes {
  import opened Sealed

  type Disk = map<Cid, Blob>

  const NODE_COUNT: nat := 6

  predicate Holds(disk: Disk, c: Cid) {
    c in disk && disk[c] == c.blob
  }

  /** Some node answers a read of `c`. */
  predicate Found(nodes: seq<Disk>, c: Cid) {
    exists i :: 0 <= i < |nodes| && Holds(nodes[i], c)
  }

  ghost function Holders(nodes: seq<Disk>, faulty: set<int>, c: Cid): set<int> {
    set i | 0 <= i < |nodes| && i !in faulty && Holds(nodes[i], c)
  }

  /** The copies an object is due: chunks three, catalogs and manifests five. */
  function Due(c: Cid): (n: nat)
    ensures 3 <= n <= 5
  {
    if c.blob.Envelope? && c.blob.aad.ChunkAad? then 3 else 5
  }

  /**
    `c` still has a full complement of copies: those a fault has not reached, and one
    more for each node a fault has.
   */
  ghost predicate Kept(nodes: seq<Disk>, faulty: set<int>, c: Cid) {
    |Holders(nodes, faulty, c)| + |faulty| >= Due(c)
  }

  /** Each of these objects has a valid copy on at least `n` nodes. */
  ghost predicate Spread(nodes: seq<Disk>, objects: set<Cid>, n: nat) {
    forall c :: c in objects ==> |Holders(nodes, {}, c)| >= n
  }

  /** No valid copy on any node outside `faulty` is lost. */
  ghost predicate Retains(before: seq<Disk>, after: seq<Disk>, faulty: set<int>, c: Cid) {
    |after| == |before| &&
    forall i :: 0 <= i < |before| && i !in faulty && Holds(before[i], c) ==> Holds(after[i], c)
  }

  lemma {:induction false} SubsetCard<T>(a: set<T>, b: set<T>)
    requires a <= b
    ensures |a| <= |b|
  {
    if a != {} {
      var x :| x in a;
      SubsetCard(a - {x}, b - {x});
    }
  }

  lemma {:induction false} RetainsKept(before: seq<Disk>, after: seq<Disk>, faulty: set<int>, c: Cid)
    requires Retains(before, after, faulty, c) && Kept(before, faulty, c)
    ensures Kept(after, faulty, c)
  {
    SubsetCard(Holders(before, faulty, c), Holders(after, faulty, c));
  }

  /** Whatever becomes of one more node, a kept object stays kept. */
  lemma {:induction false} DamageKept(nodes: seq<Disk>, faulty: set<int>, c: Cid, i: int, disk: Disk)
    requires 0 <= i < |nodes| && Kept(nodes, faulty, c)
    ensures Kept(nodes[i := disk], faulty + {i}, c)
  {
    var before, after := Holders(nodes, faulty, c), Holders(nodes[i := disk], faulty + {i}, c);
    SubsetCard(before - {i}, after);
    if i in faulty {
      assert faulty + {i} == faulty;
      assert before - {i} == before;
    }
  }

  /** Up to two nodes lost or altered leave a valid copy of every kept object. */
  lemma {:induction false} KeptFound(nodes: seq<Disk>, faulty: set<int>, c: Cid)
    requires Kept(nodes, faulty, c) && |faulty| < 3
    ensures Found(nodes, c)
  {
    assert Holders(nodes, faulty, c) != {};
    var i :| i in Holders(nodes, faulty, c);
    assert Holds(nodes[i], c);
  }

  /** Writing to as many nodes as an object is due makes it kept, faults so far included. */
  lemma {:induction false} StoredKept(nodes: seq<Disk>, faulty: set<int>, c: Cid, stored: set<int>)
    requires stored <= Holders(nodes, {}, c) && |stored| >= Due(c)
    ensures Kept(nodes, faulty, c)
  {
    SubsetCard(stored - faulty, Holders(nodes, faulty, c));
    assert stored - faulty == stored - (stored * faulty);
    SubsetCard(stored * faulty, faulty);
  }

  lemma {:induction false} HolderAt(nodes: seq<Disk>, i: nat, c: Cid)
    requires i < |nodes| && Holds(nodes[i], c)
    ensures i in Holders(nodes, {}, c)
  {
  }

  lemma {:induction false} SpreadOne(nodes: seq<Disk>, c: Cid, n: nat)
    requires |Holders(nodes, {}, c)| >= n
    ensures Spread(nodes, {c}, n)
  {
  }

  /** The first `n` nodes' copies. */
  ghost function HoldersBelow(nodes: seq<Disk>, c: Cid, n: nat): (holders: set<int>)
    requires n <= |nodes|
    ensures n == |nodes| ==> holders == Holders(nodes, {}, c)
  {
    set i | 0 <= i < n && Holds(nodes[i], c)
  }

  lemma {:induction false} NextHolder(nodes: seq<Disk>, c: Cid, n: nat)
    requires n < |nodes|
    ensures |HoldersBelow(nodes, c, n + 1)| == |HoldersBelow(nodes, c, n)| + if Holds(nodes[n], c) then 1 else 0
  {
    assert HoldersBelow(nodes, c, n + 1) == HoldersBelow(nodes, c, n) + if Holds(nodes[n], c) then {n as int} else {};
  }
}
