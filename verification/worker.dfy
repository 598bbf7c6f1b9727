/** The coordinator's handlers in place: they execute their statements on the database one by one. */
module Worker {
  import opened Wrappers
  import opened ByteStrings
  import opened Merkle
  import opened Audit
  import opened Coordinator

  class Database {
    var db: Db

    constructor (db: Db)
      ensures this.db == db
    {
      this.db := db;
    }

    /** One statement; a broken constraint leaves everything as it was. */
    method Execute(s: Statement) returns (changes: Option<nat>)
      modifies this
      ensures match Exec(old(db), s)
              case Some((after, n)) => changes == Some(n) && db == after
              case None => changes == None && db == old(db)
    {
      match s
      case InsertPointer(v, row) =>
        if v in db.pointers {
          return None;
        }
        db := db.(pointers := db.pointers[v := row]);
        return Some(1);
      case UpdatePointer(v, expected, row) =>
        if v !in db.pointers || !AsRead(db.pointers[v], expected) {
          return Some(0);
        }
        db := db.(pointers := db.pointers[v := row]);
        return Some(1);
      case UpdateTask(t, memberId, communityId, required, status) =>
        if t !in db.tasks || !Owns(db, db.tasks[t].nodeId, memberId, communityId) || db.tasks[t].status != required {
          return Some(0);
        }
        db := db.(tasks := db.tasks[t := db.tasks[t].(status := status)]);
        return Some(1);
      case InsertCredit(t, credit) =>
        if t in db.credits {
          return Some(0);
        }
        db := db.(credits := db.credits[t := credit]);
        return Some(1);
      case UpsertPlacement(c, n) =>
        db := db.(placements := db.placements[(c, n) := "healthy"]);
        return Some(1);
      case InsertVote(p, m, vote) =>
        if (p, m) in db.votes {
          return None;
        }
        db := db.(votes := db.votes[(p, m) := vote]);
        return Some(1);
      case InsertAudit(row) =>
        for i := 0 to |db.events|
          invariant db == old(db) && forall k :: 0 <= k < i ==> !Clash(db.events[k], row)
        {
          if Clash(db.events[i], row) {
            return None;
          }
        }
        db := db.(events := db.events + [row]);
        return Some(1);
    }

    /** A batch: the first statement to break a constraint undoes those before it. */
    method Batch(statements: seq<Statement>) returns (r: Option<seq<nat>>)
      modifies this
      ensures match ExecAll(old(db), statements)
              case Some((after, changes)) => r == Some(changes) && db == after
              case None => r == None && db == old(db)
    {
      var before := db;
      var changes: seq<nat> := [];
      for i := 0 to |statements|
        invariant ExecAll(before, statements[..i]) == Some((db, changes))
      {
        assert statements[..i + 1] == statements[..i] + [statements[i]];
        ExecSnoc(before, statements[..i], statements[i]);
        var n := Execute(statements[i]);
        if n.None? {
          FailsFrom(before, statements, i + 1);
          db := before;
          return None;
        }
        changes := changes + [n.value];
      }
      assert statements[..|statements|] == statements;
      r := Some(changes);
    }

    /** The newest event of a community: of all its rows, the one with the greatest sequence. */
    method Head(communityId: Bytes) returns (head: Option<AuditEvent>)
      ensures head == HeadOf(db.events, communityId)
    {
      head := None;
      for i := 0 to |db.events|
        invariant head == HeadOf(db.events[..i], communityId)
      {
        assert db.events[..i + 1][..i] == db.events[..i];
        var row := db.events[i];
        if row.communityId == communityId && (head.None? || row.event.sequence > head.value.sequence) {
          head := Some(row.event);
        }
      }
      assert db.events[..|db.events|] == db.events;
    }
  }

  lemma {:induction false} FailsFrom(db: Db, batch: seq<Statement>, n: nat)
    requires n <= |batch| && ExecAll(db, batch[..n]).None?
    ensures ExecAll(db, batch).None?
    decreases |batch|
  {
    if n < |batch| {
      var front := batch[..|batch| - 1];
      assert front[..n] == batch[..n];
      FailsFrom(db, front, n);
    } else {
      assert batch[..n] == batch;
    }
  }

  /** The coordinator's process: a database and the handlers under way. */
  class Handlers {
    const hash: Hash
    const database: Database
    var writers: map<nat, Writer>
    ghost var log: seq<Commit>

    ghost function Now(): State
      reads this, database
    {
      State(database.db, writers, log)
    }

    constructor (hash: Hash, nodes: map<Bytes, NodeRow>, proposals: map<Bytes, ProposalRow>)
      ensures this.hash == hash && fresh(database) && Now() == Initial(nodes, proposals)
    {
      this.hash, writers, log := hash, map[], [];
      database := new Database(Db(nodes, proposals, map[], map[], map[], map[], map[], []));
    }

    /** The statements of a batch, built one after another. */
    method Statements(r: Request, seen: Seen, head: Option<AuditEvent>) returns (batch: seq<Statement>)
      ensures batch == BatchFor(hash, r, seen, head)
    {
      hide Append, AuditInput;
      batch := Body(r, seen);
      var audit := AuditFor(hash, r, seen, head);
      if audit.Some? {
        batch := batch + [InsertAudit(audit.value)];
      }
    }

    method FinishWriter(w: nat)
      modifies this, database
      ensures Now() == Next(hash, old(Now()), Finish(w))
    {
      hide ExecAll, BatchFor, AuditInput, Append;
      if w !in writers || !CanFinish(writers[w]) {
        return;
      }
      var c := CommitOf(writers[w]);
      var batch := Statements(c.request, c.seen, c.head);
      var changes := database.Batch(batch);
      if changes.Some? {
        log := log + [c.(changes := changes.value)];
        writers := writers - {w};
      } else {
        var again := Retry(c.request, c.seen);
        if again.Some? {
          writers := writers[w := again.value];
        } else {
          writers := writers - {w};
        }
      }
    }

    /** One step of one handler. */
    method Take(step: Step)
      modifies this, database
      ensures Now() == Next(hash, old(Now()), step)
    {
      hide ExecAll, BatchFor, AuditInput, Append, Observe;
      match step
      case Start(w, r) =>
        if w !in writers {
          var seen := Observe(database.db, r);
          if seen.Some? {
            writers := writers[w := Reading(r, seen.value)];
          }
        }
      case ReadHead(w) =>
        if w in writers && writers[w].Reading? {
          var r, seen := writers[w].request, writers[w].seen;
          var input := AuditInput(r, seen);
          if input.Some? {
            var head := database.Head(input.value.0);
            writers := writers[w := Ready(r, seen, head)];
          }
        }
      case Finish(w) =>
        FinishWriter(w);
      case Drop(w) =>
        writers := writers - {w};
      case AddTask(t, task) =>
        if t !in database.db.tasks {
          database.db := database.db.(tasks := database.db.tasks[t := task.(status := Pending)]);
        }
    }
  }

  /** Runs any schedule on a fresh coordinator; it ends where the schedule says, and sound. */
  method Run(hash: Hash, nodes: map<Bytes, NodeRow>, proposals: map<Bytes, ProposalRow>,
          schedule: seq<Step>) returns (h: Handlers)
    ensures h.Now() == After(hash, Initial(nodes, proposals), schedule)
    ensures Sound(hash, h.Now())
  {
    hide Next, Sound, Initial;
    h := new Handlers(hash, nodes, proposals);
    for i := 0 to |schedule|
      invariant fresh(h) && fresh(h.database) && h.hash == hash
      invariant h.Now() == After(hash, Initial(nodes, proposals), schedule[..i])
    {
      h.Take(schedule[i]);
      assert schedule[..i + 1][..i] == schedule[..i];
    }
    assert schedule[..|schedule|] == schedule;
    EveryInterleavingSound(hash, nodes, proposals, schedule);
  }
}
