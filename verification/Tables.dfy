/** The evidence database as values: immutable content tables, snapshots with their
    membership, source cursors and the current pointer, and what each statement of the
    repository does to them. */
module Tables {
  import opened Wrappers
  import opened Ordering
  import opened Model

  /** An immutable row: content and the time it was first stored. */
  datatype Row<T> = Row(content: T, createdAt: string)

  datatype Freshness = Fresh | Stale

  datatype SourceState = SourceState(
    sourceId: string,
    sourceKind: SourceKind,
    freshness: Freshness,
    observedAt: string,
    cursor: Option<string>)

  datatype Diagnostic = Diagnostic(sourceLocator: string, code: string, message: string)

  /** One row of `snapshots` with the rows that name it; published once `publishedAt` is set. */
  datatype Snapshot = Snapshot(
    createdAt: string,
    publishedAt: Option<string>,
    records: set<string>,
    edges: set<string>,
    conflicts: set<Conflict>,
    sources: map<string, SourceState>,
    quarantined: seq<Diagnostic>)

  datatype CursorRow = CursorRow(cursor: string, snapshotId: string, updatedAt: string)

  datatype Database = Database(
    records: map<string, Row<Node>>,
    edges: map<string, Row<Edge>>,
    conflicts: map<Conflict, string>,
    snapshots: map<string, Snapshot>,
    cursors: map<string, CursorRow>,
    current: Option<string>)

  const EMPTY := Database(map[], map[], map[], map[], map[], None)

  /** The reference a candidate is refused for. */
  datatype Leaving = LeavingEdge(id: string) | LeavingConflict(ruleId: string)

  datatype StoreError =
    | Constraint
    | ContentMismatch(kind: string, id: string)
    | UnresolvedReference(detail: Leaving)
    | SliceLimitExceeded(kind: string, actual: nat, limit: nat)

  // ----- candidate statements

  function BeginCandidate(db: Database, id: string, createdAt: string): Result<Database, StoreError> {
    if id in db.snapshots then Err(Constraint)
    else Ok(db.(snapshots := db.snapshots[id := Snapshot(createdAt, None, {}, {}, {}, map[], [])]))
  }

  function InsertRecord(db: Database, sid: string, createdAt: string, node: Node): Result<Database, StoreError>
    requires sid in db.snapshots
  {
    if node.id in db.records && db.records[node.id].content != node then
      Err(ContentMismatch("records", node.id))
    else
      var s := db.snapshots[sid];
      Ok(db.(
        records := if node.id in db.records then db.records else db.records[node.id := Row(node, createdAt)],
        snapshots := db.snapshots[sid := s.(records := s.records + {node.id})]))
  }

  /** A new edge row needs both endpoint rows; an existing id needs the same content. */
  function InsertEdge(db: Database, sid: string, createdAt: string, edge: Edge): Result<Database, StoreError>
    requires sid in db.snapshots
  {
    if edge.id in db.edges && db.edges[edge.id].content != edge then
      Err(ContentMismatch("edges", edge.id))
    else if edge.id !in db.edges && (edge.sourceId !in db.records || edge.targetId !in db.records) then
      Err(Constraint)
    else
      var s := db.snapshots[sid];
      Ok(db.(
        edges := if edge.id in db.edges then db.edges else db.edges[edge.id := Row(edge, createdAt)],
        snapshots := db.snapshots[sid := s.(edges := s.edges + {edge.id})]))
  }

  /** The key of a conflict row is its whole content, so contents never mismatch. */
  function InsertConflict(db: Database, sid: string, createdAt: string, conflict: Conflict)
    : Result<Database, StoreError>
    requires sid in db.snapshots
  {
    if conflict !in db.conflicts
       && (conflict.leftNodeId !in db.records || conflict.rightNodeId !in db.records)
    then Err(Constraint)
    else
      var s := db.snapshots[sid];
      Ok(db.(
        conflicts := if conflict in db.conflicts then db.conflicts else db.conflicts[conflict := createdAt],
        snapshots := db.snapshots[sid := s.(conflicts := s.conflicts + {conflict})]))
  }

  function SetSourceState(db: Database, sid: string, source: SourceState): Database
    requires sid in db.snapshots
  {
    var s := db.snapshots[sid];
    db.(snapshots := db.snapshots[sid := s.(sources := s.sources[source.sourceId := source])])
  }

  function Quarantine(db: Database, sid: string, diagnostic: Diagnostic): Database
    requires sid in db.snapshots
  {
    var s := db.snapshots[sid];
    db.(snapshots := db.snapshots[sid := s.(quarantined := s.quarantined + [diagnostic])])
  }

  // ----- publication

  predicate EdgeLeaves(db: Database, s: Snapshot, id: string) {
    id in s.edges && id in db.edges
    && (db.edges[id].content.sourceId !in s.records || db.edges[id].content.targetId !in s.records)
  }

  predicate ConflictLeaves(s: Snapshot, c: Conflict) {
    c in s.conflicts && (c.leftNodeId !in s.records || c.rightNodeId !in s.records)
  }

  predicate Resolved(db: Database, sid: string)
    requires sid in db.snapshots
  {
    var s := db.snapshots[sid];
    && (forall id :: id in s.edges ==> !EdgeLeaves(db, s, id))
    && (forall c :: c in s.conflicts ==> !ConflictLeaves(s, c))
  }

  /** The least leaving edge, or else the least rule of a leaving conflict. */
  function FirstLeaving(db: Database, sid: string): (r: Leaving)
    requires sid in db.snapshots && !Resolved(db, sid)
    ensures var s := db.snapshots[sid];
            match r
            case LeavingEdge(id) =>
              EdgeLeaves(db, s, id) && forall k :: EdgeLeaves(db, s, k) ==> k == id || StringLess(id, k)
            case LeavingConflict(rule) =>
              && (forall k :: !EdgeLeaves(db, s, k))
              && (exists c :: ConflictLeaves(s, c) && c.ruleId == rule)
              && (forall c :: ConflictLeaves(s, c) ==> c.ruleId == rule || StringLess(rule, c.ruleId))
  {
    StringOrder();
    var s := db.snapshots[sid];
    var edges := set id | id in s.edges && EdgeLeaves(db, s, id);
    assert forall k :: EdgeLeaves(db, s, k) ==> k in edges;
    if edges != {} then LeavingEdge(Least(StringLess, edges))
    else
      var rules := set c | c in s.conflicts && ConflictLeaves(s, c) :: c.ruleId;
      assert forall c :: ConflictLeaves(s, c) ==> c in s.conflicts && c.ruleId in rules;
      LeavingConflict(Least(StringLess, rules))
  }

  /** The upsert of `source_cursors` from the sources of the snapshot that carry a cursor. */
  function AdvanceCursors(db: Database, sid: string, publishedAt: string): map<string, CursorRow>
    requires sid in db.snapshots
  {
    var sources := db.snapshots[sid].sources;
    db.cursors + map source | source in sources && sources[source].cursor.Some? ::
      CursorRow(sources[source].cursor.value, sid, publishedAt)
  }

  function Publish(db: Database, sid: string, publishedAt: string): Result<Database, StoreError>
    requires sid in db.snapshots
  {
    if !Resolved(db, sid) then Err(UnresolvedReference(FirstLeaving(db, sid)))
    else
      Ok(db.(
        snapshots := db.snapshots[sid := db.snapshots[sid].(publishedAt := Some(publishedAt))],
        cursors := AdvanceCursors(db, sid, publishedAt),
        current := Some(sid)))
  }

  predicate IsPublished(db: Database, sid: string) {
    sid in db.snapshots && db.snapshots[sid].publishedAt.Some?
  }
}
