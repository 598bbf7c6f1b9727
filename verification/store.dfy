/**
  A node's object store: blob files beside an SQLite index, written step by step.

  Files and committed rows are what a crash leaves; a transaction's pending rows are what it
  loses. Every change to either is one step, and each step records the disk it leaves in
  `crashes`. Unless the store is `steady`, any step may also fail, leaving the operation on its
  error path.
 */
module Store {
  import opened Wrappers
  import opened ByteStrings

  datatype StoreError = InvalidCid | CidMismatch | Quota | Failed

  datatype Path = BlobFile(cid: string) | PartialFile(cid: string) | TombstoneFile(cid: string)

  type Files = map<Path, Bytes>

  datatype Disk = Disk(files: Files, rows: map<string, nat>)

  predicate IsLowerHex(ch: char) {
    '0' <= ch <= '9' || 'a' <= ch <= 'f'
  }

  predicate IsCid(c: string) {
    |c| == 64 && forall i :: 0 <= i < |c| ==> IsLowerHex(c[i])
  }

  /** A CID is 64 lower-case hexadecimal digits. */
  lemma {:induction false} CidIff(c: string)
    ensures IsCid(c) <==> |c| == 64 && forall i :: 0 <= i < |c| ==> c[i] in "0123456789abcdef"
  {
    forall i | 0 <= i < |c| ensures IsLowerHex(c[i]) <==> c[i] in "0123456789abcdef" {
      LowerHexIff(c[i]);
    }
  }

  lemma {:induction false} LowerHexIff(ch: char)
    ensures IsLowerHex(ch) <==> ch in "0123456789abcdef"
  {
    assert '0' <= ch <= '9' ==> "0123456789abcdef"[ch as int - '0' as int] == ch;
    assert 'a' <= ch <= 'f' ==> "0123456789abcdef"[ch as int - 'a' as int + 10] == ch;
  }

  // ---------- what a disk holds ----------

  predicate IsBlob(hash: Bytes -> string, files: Files, c: string) {
    IsCid(c) && BlobFile(c) in files && hash(files[BlobFile(c)]) == c
  }

  function BlobNames(hash: Bytes -> string, files: Files): set<string> {
    set p | p in files && p.BlobFile? && IsBlob(hash, files, p.cid) :: p.cid
  }

  /** The abstract store: each name whose file still hashes to it, with its bytes. */
  function ValidBlobs(hash: Bytes -> string, files: Files): map<string, Bytes> {
    map c | c in BlobNames(hash, files) :: files[BlobFile(c)]
  }

  function Sizes(blobs: map<string, Bytes>): map<string, nat> {
    map c | c in blobs :: |blobs[c]|
  }

  /** Nothing but this program wrote the blob files. */
  ghost predicate Untampered(hash: Bytes -> string, files: Files) {
    forall c :: BlobFile(c) in files ==> IsBlob(hash, files, c)
  }

  /** The rows of these names. */
  ghost function Part(rows: map<string, nat>, names: set<string>): map<string, nat> {
    map c | c in rows && c in names :: rows[c]
  }

  ghost function Total(sizes: map<string, nat>): nat {
    if sizes == map[] then 0
    else
      var c :| c in sizes;
      sizes[c] + Total(sizes - {c})
  }

  lemma {:induction false} TotalRemove(sizes: map<string, nat>, c: string)
    requires c in sizes
    ensures Total(sizes) == sizes[c] + Total(sizes - {c})
    decreases |sizes|
  {
    var d :| d in sizes && Total(sizes) == sizes[d] + Total(sizes - {d});
    if c != d {
      TotalRemove(sizes - {d}, c);
      TotalRemove(sizes - {c}, d);
      assert sizes - {d} - {c} == sizes - {c} - {d};
    }
  }

  lemma {:induction false} TotalPut(sizes: map<string, nat>, c: string, n: nat)
    ensures Total(sizes[c := n]) == Total(sizes - {c}) + n
  {
    TotalRemove(sizes[c := n], c);
    assert sizes[c := n] - {c} == sizes - {c};
  }

  lemma {:induction false} SizesPut(blobs: map<string, Bytes>, c: string, bytes: Bytes)
    ensures Sizes(blobs[c := bytes]) == Sizes(blobs)[c := |bytes|]
  {
  }

  // ---------- how steps change it ----------

  lemma {:induction false} ScratchStep(hash: Bytes -> string, files: Files, after: Files)
    requires forall c :: BlobFile(c) in after <==> BlobFile(c) in files
    requires forall c :: BlobFile(c) in files ==> after[BlobFile(c)] == files[BlobFile(c)]
    ensures ValidBlobs(hash, after) == ValidBlobs(hash, files)
    ensures Untampered(hash, files) ==> Untampered(hash, after)
  {
    forall c ensures c in BlobNames(hash, after) <==> c in BlobNames(hash, files) {
      assert IsBlob(hash, after, c) <==> IsBlob(hash, files, c);
      if IsBlob(hash, files, c) {
        assert BlobFile(c) in files && BlobFile(c) in after;
      }
    }
    forall c | Untampered(hash, files) && BlobFile(c) in after ensures IsBlob(hash, after, c) {
      assert IsBlob(hash, files, c);
    }
  }

  lemma {:induction false} AppearStep(hash: Bytes -> string, files: Files, after: Files, c: string, bytes: Bytes)
    requires IsCid(c) && hash(bytes) == c
    requires BlobFile(c) in after && after[BlobFile(c)] == bytes
    requires forall d :: d != c ==> (BlobFile(d) in after <==> BlobFile(d) in files)
    requires forall d :: d != c && BlobFile(d) in files ==> after[BlobFile(d)] == files[BlobFile(d)]
    ensures ValidBlobs(hash, after) == ValidBlobs(hash, files)[c := bytes]
    ensures Untampered(hash, files) ==> Untampered(hash, after)
  {
    forall d ensures d in BlobNames(hash, after) <==> d in BlobNames(hash, files) || d == c {
      assert d != c ==> (IsBlob(hash, after, d) <==> IsBlob(hash, files, d));
      if IsBlob(hash, files, d) || d == c {
        assert BlobFile(d) in after;
      }
    }
    forall d | Untampered(hash, files) && BlobFile(d) in after ensures IsBlob(hash, after, d) {
      assert d != c ==> IsBlob(hash, files, d);
    }
  }

  lemma {:induction false} VanishStep(hash: Bytes -> string, files: Files, after: Files, c: string)
    requires BlobFile(c) !in after
    requires forall d :: d != c ==> (BlobFile(d) in after <==> BlobFile(d) in files)
    requires forall d :: d != c && BlobFile(d) in files ==> after[BlobFile(d)] == files[BlobFile(d)]
    ensures ValidBlobs(hash, after) == ValidBlobs(hash, files) - {c}
    ensures Untampered(hash, files) ==> Untampered(hash, after)
  {
    forall d ensures d in BlobNames(hash, after) <==> d in BlobNames(hash, files) && d != c {
      assert d != c ==> (IsBlob(hash, after, d) <==> IsBlob(hash, files, d));
      if IsBlob(hash, files, d) && d != c {
        assert BlobFile(d) in after;
      }
    }
    forall d | Untampered(hash, files) && BlobFile(d) in after ensures IsBlob(hash, after, d) {
      assert IsBlob(hash, files, d);
    }
  }

  /**
    `put` first removes a file it could not read back. A crash just then leaves the old or the
    new contents exactly when the file was not a valid blob.
   */
  lemma {:induction false} DiscardIsSafeIff(hash: Bytes -> string, files: Files, c: string, bytes: Bytes)
    requires IsCid(c) && hash(bytes) == c
    ensures var after := ValidBlobs(hash, files - {BlobFile(c)});
            (after == ValidBlobs(hash, files) || after == ValidBlobs(hash, files)[c := bytes])
            <==> c !in ValidBlobs(hash, files)
  {
    VanishStep(hash, files, files - {BlobFile(c)}, c);
    assert c in ValidBlobs(hash, files)[c := bytes];
  }

  // ---------- reopening ----------

  /** What reopening makes of a disk. */
  function Reopened(hash: Bytes -> string, d: Disk): Disk {
    Disk(Surviving(d.files, {}), Sizes(ValidBlobs(hash, d.files)))
  }

  /** Reopening leaves the valid blobs alone and makes the index list exactly them. */
  lemma {:induction false} ReopenedSpec(hash: Bytes -> string, d: Disk)
    ensures ValidBlobs(hash, Reopened(hash, d).files) == ValidBlobs(hash, d.files)
    ensures Reopened(hash, d).rows == Sizes(ValidBlobs(hash, Reopened(hash, d).files))
    ensures Untampered(hash, d.files) ==> Untampered(hash, Reopened(hash, d).files)
  {
    ScratchStep(hash, d.files, Reopened(hash, d).files);
  }

  /** The index lists exactly the valid blobs, nobody else wrote, and they fit the quota. */
  ghost predicate InStep(hash: Bytes -> string, quota: nat, d: Disk) {
    && Untampered(hash, d.files)
    && d.rows == Sizes(ValidBlobs(hash, d.files))
    && Total(d.rows) <= quota
  }

  /** What any crash leaves of a store in step: nobody else wrote, and the valid blobs fit the quota. */
  ghost predicate Recoverable(hash: Bytes -> string, quota: nat, d: Disk) {
    Untampered(hash, d.files) && Total(Sizes(ValidBlobs(hash, d.files))) <= quota
  }

  /** Reopening a recoverable disk puts the store back in step. */
  lemma {:induction false} ReopenedInStep(hash: Bytes -> string, quota: nat, d: Disk)
    requires Recoverable(hash, quota, d)
    ensures InStep(hash, quota, Reopened(hash, d))
  {
    ReopenedSpec(hash, d);
  }

  /** The step between writing a blob and indexing it: its temporary file has taken its name. */
  function Published(d: Disk, c: string, bytes: Bytes): Disk {
    d.(files := (d.files - {PartialFile(c)})[BlobFile(c) := bytes])
  }

  /** One disk a crash may leave: it stands for one of `allowed`, with no file this program did not write. */
  ghost predicate MayLeave(hash: Bytes -> string, d: Disk, allowed: set<map<string, Bytes>>, honest: bool) {
    ValidBlobs(hash, d.files) in allowed && (honest ==> Untampered(hash, d.files))
  }

  /** Every disk recorded after `before` is one a crash may leave. */
  ghost predicate Leaves(hash: Bytes -> string, before: seq<Disk>, after: seq<Disk>,
                         allowed: set<map<string, Bytes>>, honest: bool) {
    before <= after &&
    forall k :: |before| <= k < |after| ==> MayLeave(hash, after[k], allowed, honest)
  }

  /** When all it may stand for fits the quota, reopening what a crash left puts the store in step. */
  lemma {:induction false} CrashRecovers(hash: Bytes -> string, quota: nat, d: Disk, allowed: set<map<string, Bytes>>)
    requires MayLeave(hash, d, allowed, true)
    requires forall blobs :: blobs in allowed ==> Total(Sizes(blobs)) <= quota
    ensures InStep(hash, quota, Reopened(hash, d))
    ensures ValidBlobs(hash, Reopened(hash, d).files) in allowed
  {
    ReopenedInStep(hash, quota, d);
    ReopenedSpec(hash, d);
  }

  /** The files kept once all but those `left` have been looked at. */
  function Surviving(files: Files, left: set<Path>): Files {
    map p | p in files && (p in left || !p.PartialFile?) :: files[p]
  }

  lemma {:induction false} SurvivingStep(files: Files, left: set<Path>, p: Path)
    requires p in files && p !in left
    ensures Surviving(files, left) ==
            if p.PartialFile? then Surviving(files, left + {p}) - {p} else Surviving(files, left + {p})
    ensures p in Surviving(files, left + {p}) && Surviving(files, left + {p})[p] == files[p]
  {
  }

  /** The rows listed once every file but those `left` has been looked at. */
  function Listed(blobs: map<string, Bytes>, left: set<Path>): map<string, nat> {
    map c | c in blobs && BlobFile(c) !in left :: |blobs[c]|
  }

  lemma {:induction false} ListedStep(hash: Bytes -> string, files: Files, left: set<Path>, p: Path)
    requires p in files && p !in left
    ensures Listed(ValidBlobs(hash, files), left) ==
            if p.BlobFile? && IsBlob(hash, files, p.cid)
            then Listed(ValidBlobs(hash, files), left + {p})[p.cid := |files[p]|]
            else Listed(ValidBlobs(hash, files), left + {p})
  {
    assert p.BlobFile? && IsBlob(hash, files, p.cid) ==> p.cid in ValidBlobs(hash, files);
  }

  class ObjectStore {
    const hash: Bytes -> string
    const quota: nat
    var files: Files
    var rows: map<string, nat>
    /** Every disk a crash could have left. */
    var crashes: seq<Disk>
    /** No step fails while this is set. */
    var steady: bool

    function Now(): Disk
      reads this
    {
      Disk(files, rows)
    }

    ghost function Blobs(): map<string, Bytes>
      reads this
    {
      ValidBlobs(hash, files)
    }

    ghost predicate Honest()
      reads this
    {
      Untampered(hash, files)
    }

    ghost predicate Synced()
      reads this
    {
      InStep(hash, quota, Now())
    }

    /** Opening a store on whatever disk it finds. */
    constructor (h: Bytes -> string, q: nat, d: Disk)
      ensures hash == h && quota == q && Now() == Reopened(h, d)
      ensures Leaves(h, [], crashes, {ValidBlobs(h, d.files)}, Untampered(h, d.files))
    {
      hash, quota := h, q;
      files, rows := d.files, d.rows;
      crashes := [];
      new;
      Reconcile();
    }

    /** The disk as it is now is on record, unless nothing has happened since `before`. */
    ghost predicate Caught(before: Disk, past: seq<Disk>)
      reads this
    {
      (Now() == before && crashes == past) || (crashes != [] && crashes[|crashes| - 1] == Now())
    }

    /** Whether the next step fails. */
    method Fails() returns (fails: bool)
      ensures steady ==> !fails
    {
      fails :| steady ==> !fails;
    }

    method Mark()
      modifies `crashes
      ensures crashes == old(crashes) + [Now()]
    {
      crashes := crashes + [Disk(files, rows)];
    }

    /** Looks at one file: a partial one is removed, a valid blob is listed. */
    method ReconcileFile(p: Path)
      requires p in files
      modifies `files, `rows, `crashes
      ensures Caught(old(Now()), old(crashes))
      ensures files == if p.PartialFile? then old(files) - {p} else old(files)
      ensures rows == if p.BlobFile? && IsBlob(hash, files, p.cid) then old(rows)[p.cid := |files[p]|] else old(rows)
      ensures Leaves(hash, old(crashes), crashes, {old(Blobs())}, old(Honest()))
      ensures Blobs() == old(Blobs()) && (old(Honest()) ==> Honest())
    {
      if p.PartialFile? {
        files := files - {p};
      } else if p.BlobFile? && IsCid(p.cid) && hash(files[p]) == p.cid {
        rows := rows[p.cid := |files[p]|];
      }
      ScratchStep(hash, old(files), files);
      Mark();
    }

    lemma {:induction false} BlobsHaveFiles()
      ensures forall c :: c in Blobs() ==> BlobFile(c) in files
    {
    }

    /** Empties the index, drops partial files and lists every valid blob again. */
    method Reconcile()
      modifies `files, `rows, `crashes
      ensures Caught(old(Now()), old(crashes))
      ensures Now() == old(Reopened(hash, Now()))
      ensures Leaves(hash, old(crashes), crashes, {old(Blobs())}, old(Honest()))
    {
      hide ValidBlobs, Untampered;
      BlobsHaveFiles();
      rows := map[];
      Mark();
      var left := files.Keys;
      while left != {}
        invariant left <= old(files.Keys)
        invariant files == Surviving(old(files), left)
        invariant rows == Listed(old(Blobs()), left)
        invariant Leaves(hash, old(crashes), crashes, {old(Blobs())}, old(Honest()))
        invariant Blobs() == old(Blobs()) && (old(Honest()) ==> Honest())
        invariant Caught(old(Now()), old(crashes))
        decreases left
      {
        ghost var before := left;
        var p :| p in left;
        left := left - {p};
        SurvivingStep(old(files), left, p);
        ListedStep(hash, old(files), left, p);
        assert left + {p} == before;
        ReconcileFile(p);
      }
    }

    method Get(c: string) returns (r: Result<Bytes, StoreError>)
      ensures r.Ok? ==> c in Blobs() && r.value == Blobs()[c] && c in rows && rows[c] == |r.value|
      ensures r.Err? ==> c !in Blobs() || c !in rows || rows[c] != |Blobs()[c]|
    {
      if !IsCid(c) {
        return Err(InvalidCid);
      }
      if BlobFile(c) !in files {
        return Err(Failed);
      }
      var bytes := files[BlobFile(c)];
      assert hash(bytes) == c ==> IsBlob(hash, files, c);
      if hash(bytes) != c || c !in rows || rows[c] != |bytes| {
        return Err(CidMismatch);
      }
      r := Ok(bytes);
    }

    method UsedBytes() returns (total: nat)
      ensures total == Total(rows)
    {
      total := 0;
      var left := rows.Keys;
      assert Part(rows, left) == rows;
      while left != {}
        invariant left <= rows.Keys
        invariant total + Total(Part(rows, left)) == Total(rows)
        decreases left
      {
        var c :| c in left;
        ghost var before := Part(rows, left);
        TotalRemove(before, c);
        left := left - {c};
        assert before - {c} == Part(rows, left);
        total := total + rows[c];
      }
      assert Part(rows, {}) == map[];
    }

    /** Removes a blob file, or fails to. */
    method RemoveBlob(c: string) returns (ok: bool)
      requires BlobFile(c) in files
      modifies `files, `crashes
      ensures Caught(old(Now()), old(crashes))
      ensures ok ==> files == old(files) - {BlobFile(c)} && Blobs() == old(Blobs()) - {c}
      ensures !ok ==> files == old(files) && !steady
      ensures old(Honest()) ==> Honest()
      ensures Leaves(hash, old(crashes), crashes, {old(Blobs()) - {c}}, old(Honest()))
    {
      var fails := Fails();
      ok := !fails;
      if ok {
        files := files - {BlobFile(c)};
        VanishStep(hash, old(files), files, c);
        Mark();
      }
    }

    /** Sets a temporary file's contents so far. */
    method SetPartial(c: string, content: Bytes)
      modifies `files, `crashes
      ensures Caught(old(Now()), old(crashes))
      ensures files == old(files)[PartialFile(c) := content]
      ensures Blobs() == old(Blobs()) && (old(Honest()) ==> Honest())
      ensures Leaves(hash, old(crashes), crashes, {old(Blobs())}, old(Honest()))
    {
      files := files[PartialFile(c) := content];
      ScratchStep(hash, old(files), files);
      Mark();
    }

    /** Writes a temporary file block by block; a failure can leave any part of it. */
    method WritePartial(c: string, bytes: Bytes) returns (ok: bool)
      modifies `files, `crashes
      ensures Caught(old(Now()), old(crashes))
      ensures Blobs() == old(Blobs()) && (old(Honest()) ==> Honest())
      ensures PartialFile(c) in files && files == old(files)[PartialFile(c) := files[PartialFile(c)]]
      ensures if ok then files[PartialFile(c)] == bytes else !steady
      ensures Leaves(hash, old(crashes), crashes, {old(Blobs())}, old(Honest()))
    {
      hide ValidBlobs, Untampered, Reopened;
      SetPartial(c, []);
      var written := 0;
      while written < |bytes|
        invariant 0 <= written <= |bytes|
        invariant Blobs() == old(Blobs()) && (old(Honest()) ==> Honest())
        invariant files == old(files)[PartialFile(c) := bytes[..written]]
        invariant Caught(old(Now()), old(crashes))
        invariant Leaves(hash, old(crashes), crashes, {old(Blobs())}, old(Honest()))
      {
        var fails := Fails();
        if fails {
          return false;
        }
        var block :| written < block <= |bytes|;
        written := block;
        SetPartial(c, bytes[..written]);
      }
      var fails := Fails();
      ok := !fails;
    }

    /** The temporary file takes the blob's name. */
    method Publish(c: string, bytes: Bytes)
      requires IsCid(c) && hash(bytes) == c
      requires PartialFile(c) in files && files[PartialFile(c)] == bytes
      modifies `files, `crashes
      ensures Caught(old(Now()), old(crashes))
      ensures Now() == Published(old(Now()), c, bytes)
      ensures Blobs() == old(Blobs())[c := bytes] && (old(Honest()) ==> Honest())
      ensures Leaves(hash, old(crashes), crashes, {old(Blobs())[c := bytes]}, old(Honest()))
    {
      files := (files - {PartialFile(c)})[BlobFile(c) := files[PartialFile(c)]];
      AppearStep(hash, old(files), files, c, bytes);
      Mark();
    }

    /** A read-back that may itself fail. */
    method StoredAlready(c: string, bytes: Bytes, readFails: bool) returns (same: bool)
      ensures same <==> !readFails && c in Blobs() && Blobs()[c] == bytes && c in rows && rows[c] == |bytes|
    {
      var stored := Get(c);
      same := !readFails && stored.Ok? && stored.value == bytes;
    }

    /** Puts of `c` may end in the old contents or, when it fits, the new. */
    ghost function Outcomes(c: string, bytes: Bytes): set<map<string, Bytes>>
      reads this
    {
      if c in Blobs() || Total(rows - {c}) + |bytes| <= quota
      then {Blobs(), Blobs()[c := bytes]}
      else {Blobs()}
    }

    /** `put` will find a valid `c`, if there is one, to be the bytes it was given. */
    ghost predicate Settled(c: string, bytes: Bytes, readFails: bool)
      reads this
    {
      c in Blobs() ==> !readFails && Blobs()[c] == bytes && c in rows && rows[c] == |bytes|
    }

    /** The quota check, the temporary file, its rename and the index row, one transaction around them. */
    method Insert(c: string, bytes: Bytes) returns (r: Result<(), StoreError>)
      requires IsCid(c) && hash(bytes) == c && BlobFile(c) !in files
      modifies `files, `rows, `crashes
      ensures Caught(old(Now()), old(crashes))
      ensures Leaves(hash, old(crashes), crashes, old(Outcomes(c, bytes)), old(Honest()))
      ensures Blobs() in old(Outcomes(c, bytes)) && (old(Honest()) ==> Honest())
      ensures r.Ok? ==>
                && Blobs() == old(Blobs())[c := bytes] && c !in old(rows) && rows == old(rows)[c := |bytes|]
                && Total(old(rows)) + |bytes| <= quota && files == (old(files) - {PartialFile(c)})[BlobFile(c) := bytes]
      ensures r == Err(Quota) <==> Total(old(rows)) + |bytes| > quota
      ensures r == Err(Quota) ==> Now() == old(Now())
      ensures r.Err? ==> r.error == Quota || r.error == Failed
      ensures steady ==> (r.Ok? <==> c !in old(rows) && Total(old(rows)) + |bytes| <= quota)
    {
      var used := UsedBytes();
      if used + |bytes| > quota {
        return Err(Quota);
      }
      RowDropped(c);
      var ok := PrepareFile(c, bytes);
      if !ok {
        return Err(Failed);
      }
      assert c !in old(Blobs());
      r := CommitRow(c, bytes);
      assert old(Blobs())[c := bytes] - {c} == old(Blobs());
    }

    /** Clears any old temporary file, writes a new one and renames it into place. */
    method PrepareFile(c: string, bytes: Bytes) returns (ok: bool)
      requires IsCid(c) && hash(bytes) == c && BlobFile(c) !in files
      modifies `files, `crashes
      ensures Caught(old(Now()), old(crashes))
      ensures Leaves(hash, old(crashes), crashes, {old(Blobs()), old(Blobs())[c := bytes]}, old(Honest()))
      ensures Blobs() == if ok then old(Blobs())[c := bytes] else old(Blobs())
      ensures if ok then files == (old(files) - {PartialFile(c)})[BlobFile(c) := bytes] else !steady
      ensures old(Honest()) ==> Honest()
    {
      hide ValidBlobs, Untampered, Reopened, IsCid;
      ok := ClearPartial(c);
      if !ok {
        return;
      }
      ok := WritePartial(c, bytes);
      if !ok {
        return;
      }
      var fails := Fails();
      ok := !fails;
      if ok {
        Publish(c, bytes);
      }
    }

    /** Removes a temporary file an earlier put left, or fails to. */
    method ClearPartial(c: string) returns (ok: bool)
      modifies `files, `crashes
      ensures Caught(old(Now()), old(crashes))
      ensures Leaves(hash, old(crashes), crashes, {old(Blobs())}, old(Honest()))
      ensures Blobs() == old(Blobs()) && (old(Honest()) ==> Honest())
      ensures if ok then files == old(files) - {PartialFile(c)} else files == old(files) && !steady
    {
      hide ValidBlobs, Untampered, Reopened;
      ok := true;
      if PartialFile(c) in files {
        var fails := Fails();
        ok := !fails;
        if ok {
          files := files - {PartialFile(c)};
          ScratchStep(hash, old(files), files);
          Mark();
        }
      } else {
        assert files - {PartialFile(c)} == files;
      }
    }

    lemma {:induction false} RowDropped(c: string)
      ensures Total(rows - {c}) <= Total(rows)
    {
      if c in rows {
        TotalRemove(rows, c);
      } else {
        assert rows - {c} == rows;
      }
    }

    /** Inserts the row and commits; on a failure the published file is taken back if it can be. */
    method CommitRow(c: string, bytes: Bytes) returns (r: Result<(), StoreError>)
      requires BlobFile(c) in files && files[BlobFile(c)] == bytes
      modifies `files, `rows, `crashes
      ensures Caught(old(Now()), old(crashes))
      ensures Leaves(hash, old(crashes), crashes, {old(Blobs()), old(Blobs()) - {c}}, old(Honest()))
      ensures Blobs() == old(Blobs()) || Blobs() == old(Blobs()) - {c}
      ensures old(Honest()) ==> Honest()
      ensures r.Ok? ==> files == old(files) && c !in old(rows) && rows == old(rows)[c := |bytes|]
      ensures r.Err? ==> r.error == Failed
      ensures steady ==> (r.Ok? <==> c !in old(rows))
    {
      hide ValidBlobs, Untampered;
      var fails := Fails();
      if fails {
        return Err(Failed);
      }
      fails := Fails();
      if c in rows || fails {
        var _ := RemoveBlob(c);
        return Err(Failed);
      }
      fails := Fails();
      if fails {
        var _ := RemoveBlob(c);
        fails := Fails();
        if !fails {
          ghost var left := Now();
          Reconcile();
          ReopenedSpec(hash, left);
        }
        return Err(Failed);
      }
      rows := rows[c := |bytes|];
      Mark();
      r := Ok(());
    }

    /** Removes a file that could not be read back, and its row. */
    method Discard(c: string) returns (ok: bool)
      requires BlobFile(c) in files
      modifies `files, `rows, `crashes
      ensures Caught(old(Now()), old(crashes))
      ensures if ok then files == old(files) - {BlobFile(c)} && rows == old(rows) - {c} else !steady
      ensures rows == old(rows) || rows == old(rows) - {c}
      ensures Blobs() == old(Blobs()) || Blobs() == old(Blobs()) - {c}
      ensures ok ==> Blobs() == old(Blobs()) - {c}
      ensures old(Honest()) ==> Honest()
      ensures Leaves(hash, old(crashes), crashes, {old(Blobs()) - {c}}, old(Honest()))
    {
      ok := RemoveBlob(c);
      if ok {
        var fails := Fails();
        ok := !fails;
        if ok {
          rows := rows - {c};
          Mark();
        }
      }
    }

    /**
      Stores `bytes` under their CID. However it is cut short, the store reopens to its old or
      its new contents, provided a valid copy already there is read back as such; otherwise it
      may also reopen without that copy.
     */
    method Put(expected: string, bytes: Bytes, readFails: bool) returns (r: Result<(), StoreError>)
      modifies `files, `rows, `crashes
      ensures Caught(old(Now()), old(crashes))
      ensures hash(bytes) != expected ==> r == Err(CidMismatch) && Now() == old(Now()) && crashes == old(crashes)
      ensures hash(bytes) == expected && !IsCid(expected) ==> r == Err(InvalidCid) && Now() == old(Now())
      ensures old(Settled(expected, bytes, readFails)) ==>
                && Leaves(hash, old(crashes), crashes, old(Outcomes(expected, bytes)), old(Honest()))
                && Blobs() in old(Outcomes(expected, bytes))
      ensures hash(bytes) == expected ==>
                var any := old(Outcomes(expected, bytes)) + {old(Blobs()) - {expected}};
                Leaves(hash, old(crashes), crashes, any, old(Honest())) && Blobs() in any
      ensures r.Ok? ==> Blobs() == old(Blobs())[expected := bytes] && expected in rows && rows[expected] == |bytes|
      ensures old(Honest()) ==> Honest()
      ensures old(Synced()) && (r.Ok? || r.error != Failed) ==> Synced()
      ensures old(Synced() && Settled(expected, bytes, readFails)) && r == Err(Quota) ==>
                Now() == old(Now()) && Total(old(Sizes(Blobs()))) + |bytes| > quota
      ensures steady && old(Synced()) ==>
                (r.Ok? <==> hash(bytes) == expected && IsCid(expected) && Total(old(rows) - {expected}) + |bytes| <= quota)
    {
      hide ValidBlobs, Untampered, Total, Sizes, IsCid;
      if hash(bytes) != expected {
        return Err(CidMismatch);
      }
      if !IsCid(expected) {
        return Err(InvalidCid);
      }
      var done := MakeWay(expected, bytes, readFails);
      if done.Some? {
        return done.value;
      }
      ghost var middle := Now();
      if old(Synced()) {
        DiscardedInStep(old(Now()), middle, expected);
      }
      r := Insert(expected, bytes);
      assert middle.rows - {expected} == old(rows) - {expected};
      assert ValidBlobs(hash, middle.files)[expected := bytes] == old(Blobs())[expected := bytes];
      if old(Synced()) && r.Ok? {
        InsertedInStep(hash, quota, middle, Now(), expected, bytes);
      }
    }

    /** Nothing is left to do when the blob is read back; a file that is not is removed. */
    method MakeWay(c: string, bytes: Bytes, readFails: bool) returns (done: Option<Result<(), StoreError>>)
      requires IsCid(c) && hash(bytes) == c
      modifies `files, `rows, `crashes
      ensures Caught(old(Now()), old(crashes))
      ensures Leaves(hash, old(crashes), crashes, {old(Blobs()) - {c}}, old(Honest()))
      ensures Blobs() == old(Blobs()) || Blobs() == old(Blobs()) - {c}
      ensures old(Honest()) ==> Honest()
      ensures old(Settled(c, bytes, readFails)) ==> Blobs() == old(Blobs()) && (c in Blobs() ==> done.Some? && done.value.Ok?)
      ensures old(Settled(c, bytes, readFails)) && c !in old(Blobs()) ==> old(Blobs()) - {c} == old(Blobs())
      ensures done.Some? && done.value.Ok? ==>
                && Now() == old(Now()) && c in Blobs() && Blobs()[c] == bytes && c in rows && rows[c] == |bytes|
                && Blobs()[c := bytes] == Blobs() && (Synced() ==> Total(rows - {c}) + |bytes| <= quota)
      ensures done.Some? && done.value.Err? ==> done.value.error == Failed && !steady
      ensures done.None? ==> BlobFile(c) !in files
      ensures done.None? ==> Now() == old(Now()) || (Blobs() == old(Blobs()) - {c} && rows == old(rows) - {c})
      ensures done.None? && old(Synced()) ==> rows == old(rows) - {c}
      ensures done.None? && old(Synced() && Settled(c, bytes, readFails)) ==> Now() == old(Now())
    {
      hide ValidBlobs, Untampered, Total, Sizes, IsCid;
      done := None;
      if BlobFile(c) in files {
        UntamperedIsValid(c);
        var same := StoredAlready(c, bytes, readFails);
        if same {
          assert Blobs()[c := bytes] == Blobs();
          if Synced() {
            FitsAgain(c);
          }
          return Some(Ok(()));
        }
        var ok := Discard(c);
        assert c !in old(Blobs()) ==> old(Blobs()) - {c} == old(Blobs());
        if !ok {
          return Some(Err(Failed));
        }
      } else {
        BlobsHaveFiles();
        assert Blobs() - {c} == Blobs();
        if Synced() {
          NotListed(c);
        }
      }
    }

    lemma {:induction false} FitsAgain(c: string)
      requires Synced() && c in Blobs()
      ensures Total(rows - {c}) + |Blobs()[c]| <= quota
    {
      TotalRemove(rows, c);
    }

    lemma {:induction false} NotListed(c: string)
      requires Synced() && BlobFile(c) !in files
      ensures c !in Blobs() && rows - {c} == rows
    {
      BlobsHaveFiles();
    }

    lemma {:induction false} UntamperedIsValid(c: string)
      requires BlobFile(c) in files
      ensures Honest() ==> c in Blobs()
    {
      assert Honest() ==> IsBlob(hash, files, c);
    }

    /** A store in step is so still once a file and its row are both gone. */
    lemma {:induction false} DiscardedInStep(before: Disk, after: Disk, c: string)
      requires InStep(hash, quota, before) && Untampered(hash, after.files)
      requires before == after || (ValidBlobs(hash, after.files) == ValidBlobs(hash, before.files) - {c} && after.rows == before.rows - {c})
      ensures InStep(hash, quota, after)
    {
      hide ValidBlobs, Untampered;
      if before != after {
        DeletedInStep(hash, quota, before, after, c);
      }
    }

    /** Moves a blob file aside under its tombstone name. */
    method MoveAside(c: string) returns (ok: bool)
      requires BlobFile(c) in files
      modifies `files, `crashes
      ensures Caught(old(Now()), old(crashes))
      ensures ok ==> files == (old(files) - {BlobFile(c)})[TombstoneFile(c) := old(files)[BlobFile(c)]]
      ensures !ok ==> files == old(files) && !steady
      ensures Blobs() == if ok then old(Blobs()) - {c} else old(Blobs())
      ensures old(Honest()) ==> Honest()
      ensures Leaves(hash, old(crashes), crashes, {old(Blobs()) - {c}}, old(Honest()))
    {
      hide ValidBlobs, Untampered, Reopened;
      var fails := Fails();
      ok := !fails;
      if ok {
        files := (files - {BlobFile(c)})[TombstoneFile(c) := files[BlobFile(c)]];
        VanishStep(hash, old(files), files, c);
        Mark();
      }
    }

    /** Deletes the row, or puts the file back when that fails and the rename can be undone. */
    method CommitDelete(c: string, ghost before: Files) returns (ok: bool)
      requires BlobFile(c) in before
      requires files == (before - {BlobFile(c)})[TombstoneFile(c) := before[BlobFile(c)]]
      modifies `files, `rows, `crashes
      ensures Caught(old(Now()), old(crashes))
      ensures if ok then files == old(files) && rows == old(rows) - {c} else !steady
      ensures Blobs() == old(Blobs()) || Blobs() == ValidBlobs(hash, before)
      ensures Untampered(hash, before) ==> Honest()
      ensures Leaves(hash, old(crashes), crashes, {old(Blobs()), ValidBlobs(hash, before)}, Untampered(hash, before))
    {
      hide ValidBlobs, Untampered, Reopened;
      VanishStep(hash, before, files, c);
      var fails := Fails();
      if fails {
        return false;
      }
      fails := Fails();
      ok := !fails;
      if ok {
        rows := rows - {c};
        Mark();
      } else {
        PutBack(c, before);
      }
    }

    /** Undoes a rename to the tombstone name, or fails to. */
    method PutBack(c: string, ghost before: Files)
      requires BlobFile(c) in before
      requires files == (before - {BlobFile(c)})[TombstoneFile(c) := before[BlobFile(c)]]
      modifies `files, `crashes
      ensures Caught(old(Now()), old(crashes))
      ensures Blobs() == old(Blobs()) || Blobs() == ValidBlobs(hash, before)
      ensures Untampered(hash, before) && old(Honest()) ==> Honest()
      ensures Leaves(hash, old(crashes), crashes, {ValidBlobs(hash, before)}, Untampered(hash, before))
    {
      var fails := Fails();
      if fails {
        return;
      }
      files := (files - {TombstoneFile(c)})[BlobFile(c) := files[TombstoneFile(c)]];
      ScratchStep(hash, before, files);
      Mark();
    }

    /** Drops a leftover tombstone. */
    method RemoveTombstone(c: string) returns (ok: bool)
      requires TombstoneFile(c) in files
      modifies `files, `crashes
      ensures Caught(old(Now()), old(crashes))
      ensures Blobs() == old(Blobs()) && (old(Honest()) ==> Honest())
      ensures Leaves(hash, old(crashes), crashes, {old(Blobs())}, old(Honest()))
      ensures if ok then files == old(files) - {TombstoneFile(c)} else !steady
    {
      var fails := Fails();
      ok := !fails;
      if ok {
        files := files - {TombstoneFile(c)};
        ScratchStep(hash, old(files), files);
        Mark();
      }
    }

    /** Removes a blob. However it is cut short, the store reopens with the blob or without it. */
    method Delete(c: string) returns (r: Result<bool, StoreError>)
      modifies `files, `rows, `crashes
      ensures Caught(old(Now()), old(crashes))
      ensures !IsCid(c) ==> r == Err(InvalidCid) && Now() == old(Now())
      ensures IsCid(c) && r.Err? ==> r.error == Failed
      ensures Leaves(hash, old(crashes), crashes, {old(Blobs()), old(Blobs()) - {c}}, old(Honest()))
      ensures Blobs() == old(Blobs()) || Blobs() == old(Blobs()) - {c}
      ensures r.Ok? ==> Blobs() == old(Blobs()) - {c} && rows == old(rows) - {c} && (r.value <==> BlobFile(c) in old(files))
      ensures r.Ok? ==> files == if r.value then old(files) - {BlobFile(c), TombstoneFile(c)} else old(files)
      ensures old(Honest()) ==> Honest()
      ensures old(Synced()) && r.Ok? ==> Synced()
      ensures steady ==> (r.Ok? <==> IsCid(c))
    {
      hide ValidBlobs, Total, Sizes, IsCid, IsBlob;
      if !IsCid(c) {
        return Err(InvalidCid);
      }
      if BlobFile(c) !in files {
        BlobsHaveFiles();
        var fails := Fails();
        if fails {
          return Err(Failed);
        }
        rows := rows - {c};
        Mark();
        assert Blobs() - {c} == Blobs();
        r := Ok(false);
      } else {
        var ok := MoveAside(c);
        if !ok {
          return Err(Failed);
        }
        ok := CommitDelete(c, old(files));
        if !ok {
          return Err(Failed);
        }
        ok := RemoveTombstone(c);
        if !ok {
          return Err(Failed);
        }
        var fails := Fails();
        if fails {
          return Err(Failed);
        }
        r := Ok(true);
      }
      if old(Synced()) {
        DeletedInStep(hash, quota, old(Now()), Now(), c);
      }
    }
  }

  /** A row and a file that appear together keep the index in step. */
  lemma {:induction false} InsertedInStep(hash: Bytes -> string, quota: nat, before: Disk, after: Disk, c: string,
          bytes: Bytes)
    requires InStep(hash, quota, before) && Untampered(hash, after.files) && c !in before.rows
    requires ValidBlobs(hash, after.files) == ValidBlobs(hash, before.files)[c := bytes]
    requires after.rows == before.rows[c := |bytes|] && Total(before.rows) + |bytes| <= quota
    ensures InStep(hash, quota, after)
  {
    SizesPut(ValidBlobs(hash, before.files), c, bytes);
    TotalPut(before.rows, c, |bytes|);
    assert before.rows - {c} == before.rows;
  }

  lemma {:induction false} DeletedInStep(hash: Bytes -> string, quota: nat, before: Disk, after: Disk, c: string)
    requires InStep(hash, quota, before) && Untampered(hash, after.files)
    requires ValidBlobs(hash, after.files) == ValidBlobs(hash, before.files) - {c}
    requires after.rows == before.rows - {c}
    ensures InStep(hash, quota, after)
  {
    hide ValidBlobs, Untampered;
    if c in before.rows {
      TotalRemove(before.rows, c);
    } else {
      assert before.rows - {c} == before.rows;
    }
    SizesWithout(ValidBlobs(hash, before.files), c);
  }

  lemma {:induction false} SizesWithout(blobs: map<string, Bytes>, c: string)
    ensures Sizes(blobs - {c}) == Sizes(blobs) - {c}
  {
  }

  // ---------- what an unreopened failure can do ----------

  /** A published file keeps the disk recoverable exactly when the valid blobs still fit with it. */
  lemma {:induction false} PublishFitsIff(hash: Bytes -> string, quota: nat, d: Disk, c: string, bytes: Bytes)
    requires Untampered(hash, d.files) && IsCid(c) && hash(bytes) == c && c !in ValidBlobs(hash, d.files)
    ensures Recoverable(hash, quota, Published(d, c, bytes)) <==>
            Total(Sizes(ValidBlobs(hash, d.files))) + |bytes| <= quota
  {
    var blobs := ValidBlobs(hash, d.files);
    AppearStep(hash, d.files, Published(d, c, bytes).files, c, bytes);
    SizesPut(blobs, c, bytes);
    TotalPut(Sizes(blobs), c, |bytes|);
    assert Sizes(blobs) - {c} == Sizes(blobs);
  }

  /**
    The quota check sums the index, so a put into an empty store that failed between its rename
    and its commit, and was not followed by a reopening, lets a later put pass the check, and the
    step that publishes its blob overrun the quota.
   */
  lemma {:induction false} UnreopenedOverrun(hash: Bytes -> string, first: Bytes, second: Bytes) returns (d: Disk)
    requires |first| == |second| == 1 && hash(first) != hash(second) && IsCid(hash(first)) && IsCid(hash(second))
    ensures InStep(hash, 1, Disk(map[], map[])) && d == Published(Disk(map[], map[]), hash(first), first)
    ensures Recoverable(hash, 1, d) && Total(d.rows) + |second| <= 1
    ensures !Recoverable(hash, 1, Published(d, hash(second), second))
  {
    hide IsCid, ValidBlobs, Untampered, Total, Sizes;
    d := Published(Disk(map[], map[]), hash(first), first);
    EmptyInStep(hash, 1);
    OneFile(hash, first);
    assert d.files == map[BlobFile(hash(first)) := first];
    PublishFitsIff(hash, 1, d, hash(second), second);
  }

  /** A disk with one valid file holds just that blob. */
  lemma {:induction false} OneFile(hash: Bytes -> string, bytes: Bytes)
    requires IsCid(hash(bytes))
    ensures var files: Files := map[BlobFile(hash(bytes)) := bytes];
            && ValidBlobs(hash, files) == map[hash(bytes) := bytes] && Untampered(hash, files)
            && Total(Sizes(ValidBlobs(hash, files))) == |bytes|
  {
    hide IsCid, Total;
    var c := hash(bytes);
    var files: Files := map[BlobFile(c) := bytes];
    assert BlobNames(hash, files) == {c} by {
      assert IsBlob(hash, files, c) && BlobFile(c) in files;
    }
    assert Sizes(ValidBlobs(hash, files)) == map[c := |bytes|];
    OneSize(c, |bytes|);
  }

  lemma {:induction false} OneSize(c: string, n: nat)
    ensures Total(map[c := n]) == n
  {
    TotalRemove(map[c := n], c);
    assert map[c := n] - {c} == map[];
  }

  // ---------- whole runs ----------

  /** A put, whose read of what is there already may fail, or a delete. */
  datatype StoreOp = PutBlob(cid: string, bytes: Bytes, readFails: bool) | DeleteBlob(cid: string)

  datatype Outcome = Nothing | Took | Lost

  /** What an operation does to the contents: nothing, its effect, or, cut short, the loss of its blob. */
  function Effect(blobs: map<string, Bytes>, op: StoreOp, outcome: Outcome): map<string, Bytes> {
    match outcome
    case Nothing => blobs
    case Took => (match op case PutBlob(c, bytes, _) => blobs[c := bytes] case DeleteBlob(c) => blobs - {c})
    case Lost => blobs - {op.cid}
  }

  function Fold(ops: seq<StoreOp>, outcomes: seq<Outcome>): map<string, Bytes>
    requires |ops| == |outcomes|
  {
    if |ops| == 0 then map[]
    else Effect(Fold(ops[..|ops| - 1], outcomes[..|ops| - 1]), ops[|ops| - 1], outcomes[|ops| - 1])
  }

  /** The one way to lose a blob: a put of it again, whose read of the valid copy there fails. */
  predicate MayLose(blobs: map<string, Bytes>, op: StoreOp) {
    op.PutBlob? && op.readFails && op.cid in blobs
  }

  /** Deletes need a CID; puts need bytes under their own, there already or fitting what is left of the quota. */
  ghost predicate Accepted(hash: Bytes -> string, quota: nat, blobs: map<string, Bytes>, op: StoreOp) {
    IsCid(op.cid) &&
    (op.PutBlob? ==> hash(op.bytes) == op.cid && (op.cid in blobs || Total(Sizes(blobs)) + |op.bytes| <= quota))
  }

  /**
    What may come of an operation on these contents. Reported success means it took effect, and
    a blob is lost only where it may be; without trouble it takes effect exactly when the store
    accepts it, says so, and otherwise changes nothing.
   */
  ghost predicate Explained(hash: Bytes -> string, quota: nat, blobs: map<string, Bytes>, op: StoreOp, trouble: bool,
                            ok: bool, outcome: Outcome) {
    && (ok ==> outcome.Took?) && (outcome.Lost? ==> MayLose(blobs, op))
    && (!trouble ==> outcome == (if ok then Took else Nothing) && (ok <==> Accepted(hash, quota, blobs, op)))
  }

  /** A crash at any disk recorded since `from`, or now, and the reopening after it. */
  method CrashAndReopen(store: ObjectStore, from: nat, ghost allowed: set<map<string, Bytes>>) returns (next: ObjectStore)
    requires from <= |store.crashes| && Leaves(store.hash, store.crashes[..from], store.crashes, allowed, true)
    requires MayLeave(store.hash, store.Now(), allowed, true)
    requires forall blobs :: blobs in allowed ==> Total(Sizes(blobs)) <= store.quota
    ensures fresh(next) && next.hash == store.hash && next.quota == store.quota
    ensures next.Synced() && next.Blobs() in allowed
  {
    var left := store.Now();
    if from < |store.crashes| {
      if * {
        var k :| from <= k < |store.crashes|;
        left := store.crashes[k];
      }
    }
    CrashRecovers(store.hash, store.quota, left, allowed);
    next := new ObjectStore(store.hash, store.quota, left);
  }

  /** A put, when there is trouble cut short or not; a failed step or a crash is followed by reopening. */
  method AttemptPut(store: ObjectStore, op: StoreOp, trouble: bool)
    returns (next: ObjectStore, ok: bool, ghost outcome: Outcome)
    requires store.Synced() && op.PutBlob?
    requires store.hash(op.bytes) == op.cid && op.cid in store.Blobs() ==> store.Blobs()[op.cid] == op.bytes
    modifies store
    ensures next.hash == store.hash && next.quota == store.quota && (next == store || fresh(next))
    ensures next.Synced() && next.Blobs() == Effect(old(store.Blobs()), op, outcome)
    ensures Explained(store.hash, store.quota, old(store.Blobs()), op, trouble, ok, outcome)
  {
    hide ValidBlobs, Sizes, Total, Untampered, IsCid;
    var c, bytes := op.cid, op.bytes;
    store.steady := !trouble;
    if store.hash(bytes) == c {
      OutcomesFit(store, c, bytes);
      FitsIff(store, c, bytes);
    }
    RemovalFits(store, c);
    var from := |store.crashes|;
    ghost var before := store.Blobs();
    ghost var allowed := if store.hash(bytes) == c then store.Outcomes(c, bytes) else {before};
    if MayLose(before, op) {
      allowed := allowed + {before - {c}};
    }
    var r := store.Put(c, bytes, op.readFails);
    next, ok := store, r.Ok?;
    var cut :| cut ==> trouble;
    if cut || r == Err(Failed) {
      next := CrashAndReopen(store, from, allowed);
      ok := false;
    }
    outcome := if ok then Took else if next.Blobs() == before then Nothing else if next.Blobs() == before[c := bytes] then Took else Lost;
  }

  method AttemptDelete(store: ObjectStore, op: StoreOp, trouble: bool)
    returns (next: ObjectStore, ok: bool, ghost outcome: Outcome)
    requires store.Synced() && op.DeleteBlob?
    modifies store
    ensures next.hash == store.hash && next.quota == store.quota && (next == store || fresh(next))
    ensures next.Synced() && next.Blobs() == Effect(old(store.Blobs()), op, outcome)
    ensures Explained(store.hash, store.quota, old(store.Blobs()), op, trouble, ok, outcome)
  {
    hide ValidBlobs, Sizes, Total, Untampered, IsCid;
    store.steady := !trouble;
    RemovalFits(store, op.cid);
    var from := |store.crashes|;
    ghost var before := store.Blobs();
    ghost var allowed := {before, before - {op.cid}};
    var r := store.Delete(op.cid);
    next, ok := store, r.Ok?;
    var cut :| cut ==> trouble;
    if cut || r == Err(Failed) {
      next := CrashAndReopen(store, from, allowed);
      ok := false;
    }
    outcome := if ok then Took else if next.Blobs() == before then Nothing else Took;
  }

  method Attempt(store: ObjectStore, op: StoreOp, trouble: bool)
    returns (next: ObjectStore, ok: bool, ghost outcome: Outcome)
    requires store.Synced()
    requires op.PutBlob? && store.hash(op.bytes) == op.cid && op.cid in store.Blobs() ==> store.Blobs()[op.cid] == op.bytes
    modifies store
    ensures next.hash == store.hash && next.quota == store.quota && (next == store || fresh(next))
    ensures next.Synced() && next.Blobs() == Effect(old(store.Blobs()), op, outcome)
    ensures Explained(store.hash, store.quota, old(store.Blobs()), op, trouble, ok, outcome)
  {
    hide Accepted, Effect, Explained;
    match op {
      case PutBlob(_, _, _) => next, ok, outcome := AttemptPut(store, op, trouble);
      case DeleteBlob(_) => next, ok, outcome := AttemptDelete(store, op, trouble);
    }
  }

  lemma {:induction false} OutcomesFit(store: ObjectStore, c: string, bytes: Bytes)
    requires store.Synced() && (c in store.Blobs() ==> store.Blobs()[c] == bytes)
    ensures store.Settled(c, bytes, false) && (c !in store.Blobs() ==> store.Settled(c, bytes, true))
    ensures forall blobs :: blobs in store.Outcomes(c, bytes) ==> Total(Sizes(blobs)) <= store.quota
  {
    SizesPut(store.Blobs(), c, bytes);
    TotalPut(store.rows, c, |bytes|);
    if c in store.Blobs() {
      TotalRemove(store.rows, c);
    }
  }

  /** A put in a store in step fits exactly when the blob is there already or the quota has room for it. */
  lemma {:induction false} FitsIff(store: ObjectStore, c: string, bytes: Bytes)
    requires store.Synced() && (c in store.Blobs() ==> store.Blobs()[c] == bytes)
    ensures Total(store.rows - {c}) + |bytes| <= store.quota <==>
            c in store.Blobs() || Total(Sizes(store.Blobs())) + |bytes| <= store.quota
  {
    if c in store.Blobs() {
      store.FitsAgain(c);
    } else {
      assert store.rows - {c} == store.rows;
    }
  }

  lemma {:induction false} RemovalFits(store: ObjectStore, c: string)
    requires store.Synced()
    ensures Total(Sizes(store.Blobs() - {c})) <= store.quota
  {
    assert Sizes(store.Blobs() - {c}) == store.rows - {c};
    store.RowDropped(c);
  }

  /** No two of the byte strings put share a CID. */
  ghost predicate NoCollisions(hash: Bytes -> string, ops: seq<StoreOp>) {
    forall i, j :: 0 <= i < j < |ops| && ops[i].PutBlob? && ops[j].PutBlob? && hash(ops[i].bytes) == hash(ops[j].bytes) ==>
      ops[i].bytes == ops[j].bytes
  }

  /**
    Over every run from an empty store, cut short anywhere any number of times, the store is in
    step: its index lists exactly the valid blobs, they fit the quota, and they are those of the
    operations that took effect, every one that reported success among them, less any lost by
    putting a blob again when the copy there could not be read. An operation that meets no
    trouble takes effect exactly when the store accepts it, and otherwise changes nothing.
   */
  method Run(hash: Bytes -> string, quota: nat, ops: seq<StoreOp>, troubled: seq<bool>)
    returns (store: ObjectStore, oks: seq<bool>, ghost outcomes: seq<Outcome>)
    requires NoCollisions(hash, ops) && |troubled| == |ops|
    ensures |oks| == |outcomes| == |ops|
    ensures store.hash == hash && store.quota == quota && store.Synced()
    ensures store.Blobs() == Fold(ops, outcomes)
    ensures forall i :: 0 <= i < |ops| ==>
              Explained(hash, quota, Fold(ops[..i], outcomes[..i]), ops[i], troubled[i], oks[i], outcomes[i])
  {
    hide Sizes, Total, Untampered, IsBlob, Effect, Explained;
    store := new ObjectStore(hash, quota, Disk(map[], map[]));
    EmptyInStep(hash, quota);
    oks, outcomes := [], [];
    for i := 0 to |ops|
      invariant fresh(store) && store.hash == hash && store.quota == quota && store.Synced()
      invariant |oks| == |outcomes| == i
      invariant store.Blobs() == Fold(ops[..i], outcomes)
      invariant forall k :: 0 <= k < i ==>
                  Explained(hash, quota, Fold(ops[..k], outcomes[..k]), ops[k], troubled[k], oks[k], outcomes[k])
    {
      FoldBytes(ops, i, outcomes);
      ValidHashes(hash, store.files);
      assert ops[..i + 1][..i] == ops[..i] && outcomes[..i] == outcomes;
      var ok;
      ghost var outcome;
      store, ok, outcome := Attempt(store, ops[i], troubled[i]);
      assert (outcomes + [outcome])[..i] == outcomes;
      assert forall k :: 0 <= k < i ==> (outcomes + [outcome])[..k] == outcomes[..k];
      oks, outcomes := oks + [ok], outcomes + [outcome];
    }
    assert ops[..|ops|] == ops;
  }

  lemma {:induction false} ValidHashes(hash: Bytes -> string, files: Files)
    ensures forall c :: c in ValidBlobs(hash, files) ==> hash(ValidBlobs(hash, files)[c]) == c
  {
  }

  lemma {:induction false} EmptyInStep(hash: Bytes -> string, quota: nat)
    ensures Reopened(hash, Disk(map[], map[])) == Disk(map[], map[])
    ensures ValidBlobs(hash, map[]) == map[] && Total(map[]) == 0 && InStep(hash, quota, Disk(map[], map[]))
  {
  }

  lemma {:induction false} FoldBytes(ops: seq<StoreOp>, n: nat, outcomes: seq<Outcome>)
    requires n == |outcomes| <= |ops|
    ensures forall c :: c in Fold(ops[..n], outcomes) ==>
              exists i :: 0 <= i < n && ops[i].PutBlob? && ops[i].cid == c && ops[i].bytes == Fold(ops[..n], outcomes)[c]
  {
    if n > 0 {
      assert ops[..n][..n - 1] == ops[..n - 1];
      FoldBytes(ops, n - 1, outcomes[..n - 1]);
    }
  }
}
