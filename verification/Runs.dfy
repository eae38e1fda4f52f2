/** The store as a state machine: committed tables, at most one open candidate, and what
    every run keeps. */
module Runs {
  import opened Wrappers
  import opened Model
  import opened Tables

  datatype Open = Open(snapshotId: string, createdAt: string, working: Database)

  /** `candidate` is the uncommitted view of the open write transaction. */
  datatype State = State(committed: Database, candidate: Option<Open>)

  const INITIAL := State(EMPTY, None)

  datatype Operation =
    | Begin(id: string, createdAt: string)
    | PutRecord(node: Node)
    | PutEdge(edge: Edge)
    | PutConflict(conflict: Conflict)
    | PutSource(source: SourceState)
    | PutDiagnostic(diagnostic: Diagnostic)
    | Commit(publishedAt: string)
    | Rollback

  /** A failing statement leaves the candidate as it was. */
  function Keep(c: Open, r: Result<Database, StoreError>): Open {
    if r.Ok? then c.(working := r.value) else c
  }

  ghost predicate Coherent(s: State) {
    s.candidate.Some? ==> s.candidate.value.snapshotId in s.candidate.value.working.snapshots
  }

  /** The candidate after one of its statements. */
  function Edit(c: Open, op: Operation): (r: Open)
    requires c.snapshotId in c.working.snapshots
    ensures r.snapshotId == c.snapshotId && r.createdAt == c.createdAt
    ensures r.snapshotId in r.working.snapshots
  {
    match op
    case PutRecord(node) => Keep(c, InsertRecord(c.working, c.snapshotId, c.createdAt, node))
    case PutEdge(edge) => Keep(c, InsertEdge(c.working, c.snapshotId, c.createdAt, edge))
    case PutConflict(conflict) => Keep(c, InsertConflict(c.working, c.snapshotId, c.createdAt, conflict))
    case PutSource(source) => c.(working := SetSourceState(c.working, c.snapshotId, source))
    case PutDiagnostic(diagnostic) => c.(working := Quarantine(c.working, c.snapshotId, diagnostic))
    case _ => c
  }

  /** One call. Without a candidate only `Begin` acts, with one everything else does; a failed
      publication drops the candidate. */
  function Apply(s: State, op: Operation): (t: State)
    requires Coherent(s)
    ensures Coherent(t)
  {
    match s.candidate
    case None =>
      (match op
       case Begin(id, createdAt) =>
         (match BeginCandidate(s.committed, id, createdAt)
          case Ok(working) => s.(candidate := Some(Open(id, createdAt, working)))
          case Err(_) => s)
       case _ => s)
    case Some(c) =>
      (match op
       case Begin(_, _) => s
       case Commit(publishedAt) =>
         (match Tables.Publish(c.working, c.snapshotId, publishedAt)
          case Ok(db) => State(db, None)
          case Err(_) => s.(candidate := None))
       case Rollback => s.(candidate := None)
       case _ => s.(candidate := Some(Edit(c, op))))
  }

  function Run(s: State, ops: seq<Operation>): (t: State)
    requires Coherent(s)
    ensures Coherent(t)
    decreases |ops|
  {
    if ops == [] then s else Run(Apply(s, ops[0]), ops[1..])
  }

  lemma {:induction false} RunAppend(s: State, a: seq<Operation>, b: seq<Operation>)
    requires Coherent(s)
    ensures Run(s, a + b) == Run(Run(s, a), b)
    decreases |a|
  {
    if a == [] {
      assert a + b == b;
    } else {
      assert (a + b)[1..] == a[1..] + b;
      RunAppend(Apply(s, a[0]), a[1..], b);
    }
  }

  // ----- what every reachable database satisfies

  ghost predicate ContentKeyed(db: Database) {
    && (forall id :: id in db.records ==> db.records[id].content.id == id)
    && (forall id :: id in db.edges ==>
          && db.edges[id].content.id == id
          && db.edges[id].content.sourceId in db.records
          && db.edges[id].content.targetId in db.records)
    && (forall c :: c in db.conflicts ==> c.leftNodeId in db.records && c.rightNodeId in db.records)
  }

  ghost predicate MembersStored(db: Database, s: Snapshot) {
    && (forall id :: id in s.records ==> id in db.records)
    && (forall id :: id in s.edges ==> id in db.edges)
    && (forall c :: c in s.conflicts ==> c in db.conflicts)
    && (forall id :: id in s.sources ==> s.sources[id].sourceId == id)
  }

  /** Every endpoint of a member edge or conflict is a member record. */
  ghost predicate Closed(db: Database, s: Snapshot) {
    && MembersStored(db, s)
    && (forall id :: id in s.edges ==>
          db.edges[id].content.sourceId in s.records && db.edges[id].content.targetId in s.records)
    && (forall c :: c in s.conflicts ==> c.leftNodeId in s.records && c.rightNodeId in s.records)
  }

  ghost predicate CommittedValid(db: Database) {
    && ContentKeyed(db)
    && (forall sid :: sid in db.snapshots ==> IsPublished(db, sid) && Closed(db, db.snapshots[sid]))
    && (db.current.Some? ==> IsPublished(db, db.current.value))
    && (db.current.None? ==> db.snapshots == map[])
    && (forall source :: source in db.cursors ==> IsPublished(db, db.cursors[source].snapshotId))
  }

  /** `after` keeps every row of `before`. */
  ghost predicate Extends(before: Database, after: Database) {
    && (forall id :: id in before.records ==> id in after.records && after.records[id] == before.records[id])
    && (forall id :: id in before.edges ==> id in after.edges && after.edges[id] == before.edges[id])
    && (forall c :: c in before.conflicts ==> c in after.conflicts && after.conflicts[c] == before.conflicts[c])
    && (forall sid :: sid in before.snapshots ==>
          sid in after.snapshots && after.snapshots[sid] == before.snapshots[sid])
  }

  /** The candidate adds one unpublished snapshot to the committed tables and touches neither
      the cursors nor the current pointer. */
  ghost predicate CandidateValid(db: Database, c: Open) {
    && ContentKeyed(c.working)
    && Extends(db, c.working)
    && c.snapshotId !in db.snapshots
    && c.working.snapshots.Keys == db.snapshots.Keys + {c.snapshotId}
    && !IsPublished(c.working, c.snapshotId)
    && MembersStored(c.working, c.working.snapshots[c.snapshotId])
    && c.working.cursors == db.cursors
    && c.working.current == db.current
  }

  ghost predicate Valid(s: State) {
    && CommittedValid(s.committed)
    && (s.candidate.Some? ==> CandidateValid(s.committed, s.candidate.value))
  }

  // ----- one step

  lemma BeginKeeps(db: Database, id: string, createdAt: string)
    requires CommittedValid(db) && id !in db.snapshots
    ensures CandidateValid(db, Open(id, createdAt, BeginCandidate(db, id, createdAt).value))
  {
    var after := BeginCandidate(db, id, createdAt).value;
    assert Extends(db, after) by {
      assert after.records == db.records && after.edges == db.edges && after.conflicts == db.conflicts;
    }
    assert MembersStored(after, after.snapshots[id]);
  }

  ghost predicate ContentGrows(before: Database, after: Database) {
    && (forall id :: id in before.records ==> id in after.records && after.records[id] == before.records[id])
    && (forall id :: id in before.edges ==> id in after.edges && after.edges[id] == before.edges[id])
    && (forall c :: c in before.conflicts ==> c in after.conflicts && after.conflicts[c] == before.conflicts[c])
  }

  /** Adding content and rewriting the candidate's own snapshot keeps a candidate valid. */
  lemma GrowthKeeps(db: Database, c: Open, after: Database, s: Snapshot)
    requires CandidateValid(db, c)
    requires ContentGrows(c.working, after) && ContentKeyed(after)
    requires after.snapshots == c.working.snapshots[c.snapshotId := s]
    requires s.publishedAt.None? && MembersStored(after, s)
    requires after.cursors == c.working.cursors && after.current == c.working.current
    ensures CandidateValid(db, c.(working := after))
  {
    assert Extends(db, after) by {
      ContentGrowsFrom(db, c.working, after);
      forall sid | sid in db.snapshots
        ensures sid in after.snapshots && after.snapshots[sid] == db.snapshots[sid]
      {
        assert sid != c.snapshotId;
      }
    }
  }

  lemma ContentGrowsFrom(db: Database, before: Database, after: Database)
    requires Extends(db, before) && ContentGrows(before, after)
    ensures ContentGrows(db, after)
  {
  }

  lemma RecordKeeps(db: Database, c: Open, node: Node)
    requires CommittedValid(db) && CandidateValid(db, c)
    ensures CandidateValid(db, Keep(c, InsertRecord(c.working, c.snapshotId, c.createdAt, node)))
  {
    var r := InsertRecord(c.working, c.snapshotId, c.createdAt, node);
    if r.Ok? {
      GrowthKeeps(db, c, r.value, r.value.snapshots[c.snapshotId]);
    }
  }

  lemma EdgeKeeps(db: Database, c: Open, edge: Edge)
    requires CommittedValid(db) && CandidateValid(db, c)
    ensures CandidateValid(db, Keep(c, InsertEdge(c.working, c.snapshotId, c.createdAt, edge)))
  {
    var r := InsertEdge(c.working, c.snapshotId, c.createdAt, edge);
    if r.Ok? {
      GrowthKeeps(db, c, r.value, r.value.snapshots[c.snapshotId]);
    }
  }

  lemma ConflictKeeps(db: Database, c: Open, conflict: Conflict)
    requires CommittedValid(db) && CandidateValid(db, c)
    ensures CandidateValid(db, Keep(c, InsertConflict(c.working, c.snapshotId, c.createdAt, conflict)))
  {
    var r := InsertConflict(c.working, c.snapshotId, c.createdAt, conflict);
    if r.Ok? {
      GrowthKeeps(db, c, r.value, r.value.snapshots[c.snapshotId]);
    }
  }

  lemma SourceKeeps(db: Database, c: Open, source: SourceState)
    requires CommittedValid(db) && CandidateValid(db, c)
    ensures CandidateValid(db, Keep(c, Ok(SetSourceState(c.working, c.snapshotId, source))))
  {
    var after := SetSourceState(c.working, c.snapshotId, source);
    GrowthKeeps(db, c, after, after.snapshots[c.snapshotId]);
  }

  lemma DiagnosticKeeps(db: Database, c: Open, diagnostic: Diagnostic)
    requires CommittedValid(db) && CandidateValid(db, c)
    ensures CandidateValid(db, Keep(c, Ok(Quarantine(c.working, c.snapshotId, diagnostic))))
  {
    var after := Quarantine(c.working, c.snapshotId, diagnostic);
    GrowthKeeps(db, c, after, after.snapshots[c.snapshotId]);
  }

  lemma EditKeeps(db: Database, c: Open, op: Operation)
    requires CommittedValid(db) && CandidateValid(db, c)
    ensures CandidateValid(db, Edit(c, op))
  {
    match op
    case PutRecord(node) => RecordKeeps(db, c, node);
    case PutEdge(edge) => EdgeKeeps(db, c, edge);
    case PutConflict(conflict) => ConflictKeeps(db, c, conflict);
    case PutSource(source) => SourceKeeps(db, c, source);
    case PutDiagnostic(diagnostic) => DiagnosticKeeps(db, c, diagnostic);
    case _ =>
  }

  lemma PublishedIsClosed(db: Database, c: Open)
    requires CandidateValid(db, c)
    requires Resolved(c.working, c.snapshotId)
    ensures Closed(c.working, c.working.snapshots[c.snapshotId])
  {
    var s := c.working.snapshots[c.snapshotId];
    assert forall id :: id in s.edges ==> !EdgeLeaves(c.working, s, id);
    assert forall x :: x in s.conflicts ==> !ConflictLeaves(s, x);
  }

  lemma ClosedStays(before: Database, after: Database, s: Snapshot)
    requires Extends(before, after) && Closed(before, s)
    ensures Closed(after, s)
  {
  }

  lemma PublishExtends(db: Database, c: Open, publishedAt: string)
    requires CandidateValid(db, c)
    requires Resolved(c.working, c.snapshotId)
    ensures Extends(db, Tables.Publish(c.working, c.snapshotId, publishedAt).value)
  {
  }

  lemma PublishKeeps(db: Database, c: Open, publishedAt: string)
    requires CommittedValid(db) && CandidateValid(db, c)
    requires Resolved(c.working, c.snapshotId)
    ensures CommittedValid(Tables.Publish(c.working, c.snapshotId, publishedAt).value)
  {
    var after := Tables.Publish(c.working, c.snapshotId, publishedAt).value;
    PublishExtends(db, c, publishedAt);
    assert ContentKeyed(after);
    forall sid | sid in after.snapshots
      ensures IsPublished(after, sid) && Closed(after, after.snapshots[sid])
    {
      if sid == c.snapshotId {
        PublishedIsClosed(db, c);
      } else {
        assert after.snapshots[sid] == db.snapshots[sid];
        ClosedStays(db, after, db.snapshots[sid]);
      }
    }
  }

  lemma IdleStepKeeps(s: State, op: Operation)
    requires Valid(s) && Coherent(s) && s.candidate.None?
    ensures Valid(Apply(s, op)) && Apply(s, op).committed == s.committed
  {
    if op.Begin? && op.id !in s.committed.snapshots {
      BeginKeeps(s.committed, op.id, op.createdAt);
    }
  }

  lemma CommitStepKeeps(s: State, publishedAt: string)
    requires Valid(s) && Coherent(s) && s.candidate.Some?
    ensures Valid(Apply(s, Commit(publishedAt)))
    ensures Extends(s.committed, Apply(s, Commit(publishedAt)).committed)
  {
    var c := s.candidate.value;
    CommitOutcome(s, publishedAt);
    if Resolved(c.working, c.snapshotId) {
      PublishKeeps(s.committed, c, publishedAt);
      PublishExtends(s.committed, c, publishedAt);
    }
  }

  /** A commit publishes a resolved candidate and drops any other. */
  lemma CommitOutcome(s: State, publishedAt: string)
    requires Coherent(s) && s.candidate.Some?
    ensures var c := s.candidate.value;
            if Resolved(c.working, c.snapshotId)
            then Apply(s, Commit(publishedAt))
                 == State(Tables.Publish(c.working, c.snapshotId, publishedAt).value, None)
            else Apply(s, Commit(publishedAt)) == s.(candidate := None)
  {
  }

  lemma EditStepKeeps(s: State, op: Operation)
    requires Valid(s) && Coherent(s) && s.candidate.Some? && !op.Commit?
    ensures Valid(Apply(s, op)) && Apply(s, op).committed == s.committed
  {
    EditKeeps(s.committed, s.candidate.value, op);
  }

  /** Every call keeps the store valid and takes nothing from the committed tables. */
  lemma StepKeeps(s: State, op: Operation)
    requires Valid(s) && Coherent(s)
    ensures Valid(Apply(s, op))
    ensures Extends(s.committed, Apply(s, op).committed)
  {
    if s.candidate.None? {
      IdleStepKeeps(s, op);
    } else if op.Commit? {
      CommitStepKeeps(s, op.publishedAt);
    } else {
      EditStepKeeps(s, op);
    }
  }

  lemma ExtendsTransitive(a: Database, b: Database, c: Database)
    requires Extends(a, b) && Extends(b, c)
    ensures Extends(a, c)
  {
  }

  // ----- every run

  lemma {:induction false} RunKeeps(s: State, ops: seq<Operation>)
    requires Valid(s) && Coherent(s)
    ensures Valid(Run(s, ops))
    ensures Extends(s.committed, Run(s, ops).committed)
    decreases |ops|
  {
    if ops != [] {
      StepKeeps(s, ops[0]);
      RunKeeps(Apply(s, ops[0]), ops[1..]);
      ExtendsTransitive(s.committed, Apply(s, ops[0]).committed, Run(s, ops).committed);
    }
  }

  lemma InitialValid()
    ensures Valid(INITIAL) && Coherent(INITIAL)
  {
  }

  /** After any run the current pointer names a published snapshot, every committed snapshot
      is published, and all its edge and conflict endpoints are its members. */
  lemma StoreInvariant(ops: seq<Operation>)
    ensures var db := Run(INITIAL, ops).committed;
            && (db.current.Some? ==> IsPublished(db, db.current.value))
            && (forall sid :: sid in db.snapshots ==> IsPublished(db, sid) && Closed(db, db.snapshots[sid]))
            && ContentKeyed(db)
  {
    InitialValid();
    RunKeeps(INITIAL, ops);
  }

  /** Whatever happens later, committed rows keep their content and committed snapshots their
      membership, sources and publication time. */
  lemma ImmutableForEver(earlier: seq<Operation>, later: seq<Operation>)
    ensures Extends(Run(INITIAL, earlier).committed, Run(INITIAL, earlier + later).committed)
  {
    InitialValid();
    RunKeeps(INITIAL, earlier);
    RunAppend(INITIAL, earlier, later);
    RunKeeps(Run(INITIAL, earlier), later);
  }

  // ----- publication is the only way to change committed state

  /** The call publishes: a candidate is open, its references resolve, and it is committed. */
  predicate Publishes(s: State, op: Operation)
    requires Coherent(s)
  {
    op.Commit? && s.candidate.Some?
    && Resolved(s.candidate.value.working, s.candidate.value.snapshotId)
  }

  /** A source the snapshot supplies a cursor for gets that cursor, any other keeps its row. */
  ghost predicate CursorsAdvanced(before: Database, after: Database, sid: string, publishedAt: string) {
    && (forall source :: source in after.cursors <==>
          source in before.cursors || Supplied(after, sid, source).Some?)
    && (forall source :: source in after.cursors ==>
          after.cursors[source] ==
          if Supplied(after, sid, source).Some?
          then CursorRow(Supplied(after, sid, source).value, sid, publishedAt)
          else before.cursors[source])
  }

  lemma PublishAdvances(before: Database, db: Database, sid: string, publishedAt: string)
    requires sid in db.snapshots && Resolved(db, sid) && db.cursors == before.cursors
    ensures CursorsAdvanced(before, Tables.Publish(db, sid, publishedAt).value, sid, publishedAt)
  {
  }

  lemma PublicationChanges(s: State, op: Operation)
    requires Valid(s) && Coherent(s) && Publishes(s, op)
    ensures var c := s.candidate.value;
            var after := Apply(s, op).committed;
            && after.records == c.working.records && after.edges == c.working.edges
            && after.conflicts == c.working.conflicts
            && after.current == Some(c.snapshotId)
            && after.snapshots == c.working.snapshots[
                 c.snapshotId := c.working.snapshots[c.snapshotId].(publishedAt := Some(op.publishedAt))]
            && CursorsAdvanced(s.committed, after, c.snapshotId, op.publishedAt)
            && Apply(s, op).candidate.None?
  {
    CommitOutcome(s, op.publishedAt);
    PublishAdvances(s.committed, s.candidate.value.working, s.candidate.value.snapshotId, op.publishedAt);
  }

  lemma OnlyPublicationChanges(s: State, op: Operation)
    requires Coherent(s) && !Publishes(s, op)
    ensures Apply(s, op).committed == s.committed
  {
  }

  lemma NewSnapshotChanges(before: Database, after: Database, c: Open)
    requires CandidateValid(before, c) && after.snapshots.Keys == c.working.snapshots.Keys
    ensures after != before
  {
    assert c.snapshotId in after.snapshots && c.snapshotId !in before.snapshots;
  }

  /** Committed tables change exactly at a successful publication, and then to the candidate's
      tables with its snapshot published, current, and its cursors advanced. */
  lemma AtomicPublication(s: State, op: Operation)
    requires Valid(s) && Coherent(s)
    ensures Apply(s, op).committed != s.committed <==> Publishes(s, op)
    ensures Publishes(s, op) ==>
              var c := s.candidate.value;
              var after := Apply(s, op).committed;
              && after.records == c.working.records && after.edges == c.working.edges
              && after.conflicts == c.working.conflicts
              && after.current == Some(c.snapshotId)
              && after.snapshots == c.working.snapshots[
                   c.snapshotId := c.working.snapshots[c.snapshotId].(publishedAt := Some(op.publishedAt))]
              && CursorsAdvanced(s.committed, after, c.snapshotId, op.publishedAt)
              && Apply(s, op).candidate.None?
  {
    if Publishes(s, op) {
      PublicationChanges(s, op);
      NewSnapshotChanges(s.committed, Apply(s, op).committed, s.candidate.value);
    } else {
      OnlyPublicationChanges(s, op);
    }
  }

  // ----- cursors

  /** The snapshots published by a run, oldest first. */
  function PublishedBy(s: State, ops: seq<Operation>): seq<string>
    requires Coherent(s)
    decreases |ops|
  {
    if ops == [] then []
    else
      (if Publishes(s, ops[0]) then [s.candidate.value.snapshotId] else [])
      + PublishedBy(Apply(s, ops[0]), ops[1..])
  }

  /** The cursor a published snapshot supplied for a source, if any. */
  function Supplied(db: Database, sid: string, source: string): Option<string> {
    if sid in db.snapshots && source in db.snapshots[sid].sources
    then db.snapshots[sid].sources[source].cursor
    else None
  }

  /** The cursor of the most recent snapshot in the log that supplied one. */
  function LatestSupplied(db: Database, log: seq<string>, source: string): Option<string> {
    if log == [] then None
    else
      var last := Supplied(db, log[|log| - 1], source);
      if last.Some? then last else LatestSupplied(db, log[..|log| - 1], source)
  }

  function StoredCursor(db: Database, source: string): Option<string> {
    if source in db.cursors then Some(db.cursors[source].cursor) else None
  }

  lemma {:induction false} LatestStable(before: Database, after: Database, log: seq<string>, source: string)
    requires Extends(before, after)
    requires forall sid :: sid in log ==> sid in before.snapshots
    ensures LatestSupplied(after, log, source) == LatestSupplied(before, log, source)
  {
    if log != [] {
      assert log[|log| - 1] in log;
      LatestStable(before, after, log[..|log| - 1], source);
    }
  }

  /** The log accounts for the committed tables. */
  ghost predicate Accounts(db: Database, log: seq<string>) {
    && (forall sid :: sid in log ==> sid in db.snapshots)
    && (forall source :: StoredCursor(db, source) == LatestSupplied(db, log, source))
    && db.current == if log == [] then None else Some(log[|log| - 1])
  }

  lemma PublishCursor(db: Database, sid: string, publishedAt: string, source: string)
    requires sid in db.snapshots && Resolved(db, sid)
    ensures var after := Tables.Publish(db, sid, publishedAt).value;
            StoredCursor(after, source) ==
            if Supplied(after, sid, source).Some? then Supplied(after, sid, source)
            else StoredCursor(db, source)
  {
  }

  lemma PublishAccounts(s: State, op: Operation, log: seq<string>)
    requires Valid(s) && Coherent(s) && Publishes(s, op)
    requires Accounts(s.committed, log)
    ensures Accounts(Apply(s, op).committed, log + [s.candidate.value.snapshotId])
  {
    var c := s.candidate.value;
    CommitOutcome(s, op.publishedAt);
    assert CandidateValid(s.committed, c);
    CandidateAccounts(s.committed, c, op.publishedAt, log);
  }

  lemma CandidateAccounts(db: Database, c: Open, publishedAt: string, log: seq<string>)
    requires CandidateValid(db, c) && Resolved(c.working, c.snapshotId)
    requires Accounts(db, log)
    ensures Accounts(Tables.Publish(c.working, c.snapshotId, publishedAt).value, log + [c.snapshotId])
  {
    var after := Tables.Publish(c.working, c.snapshotId, publishedAt).value;
    var next := log + [c.snapshotId];
    PublishExtends(db, c, publishedAt);
    assert next[..|next| - 1] == log;
    forall source
      ensures StoredCursor(after, source) == LatestSupplied(after, next, source)
    {
      LatestStable(db, after, log, source);
      PublishCursor(c.working, c.snapshotId, publishedAt, source);
      assert StoredCursor(c.working, source) == StoredCursor(db, source);
    }
  }

  lemma NoPublishAccounts(s: State, op: Operation, log: seq<string>)
    requires Valid(s) && Coherent(s) && !Publishes(s, op)
    requires Accounts(s.committed, log)
    ensures Accounts(Apply(s, op).committed, log)
  {
    AtomicPublication(s, op);
  }

  lemma {:induction false} PublishedByStep(s: State, ops: seq<Operation>, log: seq<string>)
    requires Coherent(s) && ops != []
    ensures log + PublishedBy(s, ops) ==
            (if Publishes(s, ops[0]) then log + [s.candidate.value.snapshotId] else log)
            + PublishedBy(Apply(s, ops[0]), ops[1..])
  {
  }

  lemma {:induction false} RunAccounts(s: State, ops: seq<Operation>, log: seq<string>)
    requires Valid(s) && Coherent(s) && Accounts(s.committed, log)
    ensures Accounts(Run(s, ops).committed, log + PublishedBy(s, ops))
    decreases |ops|
  {
    if ops == [] {
      assert log + PublishedBy(s, ops) == log;
    } else {
      var op := ops[0];
      StepKeeps(s, op);
      PublishedByStep(s, ops, log);
      var next := if Publishes(s, op) then log + [s.candidate.value.snapshotId] else log;
      if Publishes(s, op) {
        PublishAccounts(s, op, log);
      } else {
        NoPublishAccounts(s, op, log);
      }
      RunAccounts(Apply(s, op), ops[1..], next);
    }
  }

  /** After any run each source cursor is the one in the most recently published snapshot that
      supplied one, and the current snapshot is the last published; failed and abandoned
      candidates leave no trace. */
  lemma CursorsFollowPublications(ops: seq<Operation>, source: string)
    ensures var db := Run(INITIAL, ops).committed;
            var log := PublishedBy(INITIAL, ops);
            && StoredCursor(db, source) == LatestSupplied(db, log, source)
            && db.current == if log == [] then None else Some(log[|log| - 1])
  {
    InitialValid();
    RunAccounts(INITIAL, ops, []);
    assert [] + PublishedBy(INITIAL, ops) == PublishedBy(INITIAL, ops);
  }
}
