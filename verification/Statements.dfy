/** What each statement of a candidate changes in the tables, and what it leaves alone. */
module Statements {
  import opened Wrappers
  import opened Model
  import opened Tables

  /** Only content and the candidate's own membership may differ. */
  ghost predicate OthersKept(before: Database, after: Database, sid: string) {
    && after.cursors == before.cursors && after.current == before.current
    && after.snapshots.Keys == before.snapshots.Keys
    && forall other :: other in before.snapshots && other != sid ==> after.snapshots[other] == before.snapshots[other]
  }

  /** Every row is kept, and at most one is added, stamped with the candidate's time. */
  ghost predicate RowAdded<T>(before: map<string, Row<T>>, after: map<string, Row<T>>, id: string, row: Row<T>) {
    && (forall k :: k in after <==> k in before || k == id)
    && (forall k :: k in before ==> after[k] == before[k])
    && (id !in before ==> after[id] == row)
  }

  /** A new candidate is one more snapshot, unpublished and empty. */
  lemma BeginStatement(db: Database, id: string, createdAt: string)
    ensures var r := BeginCandidate(db, id, createdAt);
            if id in db.snapshots then r == Err(Constraint)
            else
              && r.Ok?
              && r.value.records == db.records && r.value.edges == db.edges && r.value.conflicts == db.conflicts
              && r.value.cursors == db.cursors && r.value.current == db.current
              && r.value.snapshots.Keys == db.snapshots.Keys + {id}
              && (forall other :: other in db.snapshots ==> r.value.snapshots[other] == db.snapshots[other])
              && r.value.snapshots[id] == Snapshot(createdAt, None, {}, {}, {}, map[], [])
  {
  }

  /** A record is refused exactly when its id has other content. */
  lemma RecordStatement(db: Database, sid: string, createdAt: string, node: Node)
    requires sid in db.snapshots
    ensures var r := InsertRecord(db, sid, createdAt, node);
            if node.id in db.records && db.records[node.id].content != node
            then r == Err(ContentMismatch("records", node.id))
            else
              && r.Ok? && OthersKept(db, r.value, sid)
              && RowAdded(db.records, r.value.records, node.id, Row(node, createdAt))
              && r.value.edges == db.edges && r.value.conflicts == db.conflicts
              && r.value.snapshots[sid]
                 == db.snapshots[sid].(records := db.snapshots[sid].records + {node.id})
  {
  }

  /** An edge is refused when its id has other content, or is new and an endpoint is not stored. */
  lemma EdgeStatement(db: Database, sid: string, createdAt: string, edge: Edge)
    requires sid in db.snapshots
    ensures var r := InsertEdge(db, sid, createdAt, edge);
            if edge.id in db.edges && db.edges[edge.id].content != edge
            then r == Err(ContentMismatch("edges", edge.id))
            else if edge.id !in db.edges && !({edge.sourceId, edge.targetId} <= db.records.Keys)
            then r == Err(Constraint)
            else
              && r.Ok? && OthersKept(db, r.value, sid)
              && RowAdded(db.edges, r.value.edges, edge.id, Row(edge, createdAt))
              && r.value.records == db.records && r.value.conflicts == db.conflicts
              && r.value.snapshots[sid] == db.snapshots[sid].(edges := db.snapshots[sid].edges + {edge.id})
  {
  }

  /** A conflict is refused when it is new and a side is not stored. */
  lemma ConflictStatement(db: Database, sid: string, createdAt: string, conflict: Conflict)
    requires sid in db.snapshots
    ensures var r := InsertConflict(db, sid, createdAt, conflict);
            if conflict !in db.conflicts && !({conflict.leftNodeId, conflict.rightNodeId} <= db.records.Keys)
            then r == Err(Constraint)
            else
              && r.Ok? && OthersKept(db, r.value, sid)
              && (forall c :: c in r.value.conflicts <==> c in db.conflicts || c == conflict)
              && (forall c :: c in db.conflicts ==> r.value.conflicts[c] == db.conflicts[c])
              && (conflict !in db.conflicts ==> r.value.conflicts[conflict] == createdAt)
              && r.value.records == db.records && r.value.edges == db.edges
              && r.value.snapshots[sid]
                 == db.snapshots[sid].(conflicts := db.snapshots[sid].conflicts + {conflict})
  {
  }

  /** A source's state replaces its earlier one. */
  lemma SourceStatement(db: Database, sid: string, source: SourceState)
    requires sid in db.snapshots
    ensures var a, s := SetSourceState(db, sid, source), db.snapshots[sid];
            && OthersKept(db, a, sid)
            && a.records == db.records && a.edges == db.edges && a.conflicts == db.conflicts
            && a.snapshots[sid] == s.(sources := a.snapshots[sid].sources)
            && a.snapshots[sid].sources.Keys == s.sources.Keys + {source.sourceId}
            && a.snapshots[sid].sources[source.sourceId] == source
            && forall id :: id in s.sources && id != source.sourceId ==> a.snapshots[sid].sources[id] == s.sources[id]
  {
  }

  /** A diagnostic comes after the earlier ones. */
  lemma DiagnosticStatement(db: Database, sid: string, diagnostic: Diagnostic)
    requires sid in db.snapshots
    ensures var a, s := Quarantine(db, sid, diagnostic), db.snapshots[sid];
            && OthersKept(db, a, sid)
            && a.records == db.records && a.edges == db.edges && a.conflicts == db.conflicts
            && a.snapshots[sid] == s.(quarantined := s.quarantined + [diagnostic])
  {
  }
}
