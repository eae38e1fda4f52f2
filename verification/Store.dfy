/** The evidence repository and its transactional candidate builder. */
module Store {
  import opened Wrappers
  import opened Sequences
  import opened Ordering
  import opened Model
  import opened Proof
  import opened Tables
  import opened Statements
  import opened Runs
  import opened Reachable

  /** What the caller of a statement sees of its effect. */
  function Outcome(r: Result<Database, StoreError>): Result<(), StoreError> {
    if r.Ok? then Ok(()) else Err(r.error)
  }

  // ----- what a loaded slice lists

  /** Exactly the member records under their own ids, in strict id order. */
  ghost predicate ListsRecords(db: Database, s: Snapshot, nodes: seq<Node>) {
    && (forall i, j :: 0 <= i < j < |nodes| ==> StringLess(nodes[i].id, nodes[j].id))
    && (forall n :: n in nodes <==> n.id in s.records && n.id in db.records && db.records[n.id].content == n)
  }

  ghost predicate ListsEdges(db: Database, s: Snapshot, edges: seq<Edge>) {
    && (forall i, j :: 0 <= i < j < |edges| ==> StringLess(edges[i].id, edges[j].id))
    && (forall e :: e in edges <==> e.id in s.edges && e.id in db.edges && db.edges[e.id].content == e)
  }

  ghost predicate ListsConflicts(s: Snapshot, conflicts: seq<Conflict>) {
    StrictlySorted(ConflictLess, conflicts) && forall c :: c in conflicts <==> c in s.conflicts
  }

  ghost predicate ListsSources(s: Snapshot, sources: seq<SourceState>) {
    && (forall i, j :: 0 <= i < j < |sources| ==> StringLess(sources[i].sourceId, sources[j].sourceId))
    && (forall x :: x in sources <==> x.sourceId in s.sources && s.sources[x.sourceId] == x)
  }

  ghost predicate ListsSnapshot(db: Database, sid: string, slice: GraphSlice)
    requires sid in db.snapshots
  {
    var s := db.snapshots[sid];
    && slice.snapshotId == sid
    && ListsRecords(db, s, slice.nodes) && ListsEdges(db, s, slice.edges)
    && ListsConflicts(s, slice.conflicts) && ListsSources(s, slice.sources)
  }

  /** All of the current snapshot, the first limit it exceeds, or nothing before the first
      publication. */
  ghost predicate LoadsCurrent(db: Database, limits: Limits, r: Result<Option<GraphSlice>, StoreError>)
    requires CommittedValid(db)
  {
    match db.current
    case None => r == Ok(None)
    case Some(sid) =>
      var s := db.snapshots[sid];
      if |s.records| > limits.maxNodes then
        r == Err(SliceLimitExceeded("nodes", |s.records|, limits.maxNodes))
      else if |s.edges| > limits.maxEdges then
        r == Err(SliceLimitExceeded("edges", |s.edges|, limits.maxEdges))
      else if |s.conflicts| > limits.maxConflicts then
        r == Err(SliceLimitExceeded("conflicts", |s.conflicts|, limits.maxConflicts))
      else r.Ok? && r.value.Some? && ListsSnapshot(db, sid, r.value.value)
  }

  /** Listing a map keyed by name gives its values, each once, in strict name order. */
  lemma ListedValues<V(!new)>(m: map<string, V>, name: V -> string)
    requires forall k :: k in m ==> name(m[k]) == k
    ensures forall i, j :: 0 <= i < j < |Values(m)| ==> StringLess(name(Values(m)[i]), name(Values(m)[j]))
    ensures forall v :: v in Values(m) <==> name(v) in m && m[name(v)] == v
  {
    ValuesAt(m);
    ValuesMembers(m);
  }

  lemma RecordsListed(db: Database, sid: string)
    requires CommittedValid(db) && sid in db.snapshots
    ensures ListsRecords(db, db.snapshots[sid], Values(EvidenceOf(db, sid).nodes))
    ensures |EvidenceOf(db, sid).nodes| == |db.snapshots[sid].records|
  {
    var m := EvidenceOf(db, sid).nodes;
    assert Closed(db, db.snapshots[sid]);
    assert m.Keys == db.snapshots[sid].records;
    ListedValues(m, (n: Node) => n.id);
  }

  lemma EdgesListed(db: Database, sid: string)
    requires CommittedValid(db) && sid in db.snapshots
    ensures ListsEdges(db, db.snapshots[sid], Values(EvidenceOf(db, sid).edges))
    ensures |EvidenceOf(db, sid).edges| == |db.snapshots[sid].edges|
  {
    var m := EvidenceOf(db, sid).edges;
    assert Closed(db, db.snapshots[sid]);
    assert m.Keys == db.snapshots[sid].edges;
    ListedValues(m, (e: Edge) => e.id);
  }

  lemma RestListed(db: Database, sid: string)
    requires CommittedValid(db) && sid in db.snapshots
    ensures EvidenceOf(db, sid).conflicts == db.snapshots[sid].conflicts
    ensures ListsSources(db.snapshots[sid], SourcesOf(db, sid))
  {
    assert Closed(db, db.snapshots[sid]);
    ListedValues(db.snapshots[sid].sources, (x: SourceState) => x.sourceId);
  }

  lemma CurrentSliceMeaning(db: Database, limits: Limits)
    requires CommittedValid(db)
    ensures LoadsCurrent(db, limits, CurrentSlice(db, limits))
  {
    if db.current.Some? {
      RecordsListed(db, db.current.value);
      EdgesListed(db, db.current.value);
      RestListed(db, db.current.value);
    }
  }

  // ----- the repository

  /** Every method moves `State()` by `Runs.Apply`, so whatever `Runs` proves of all runs holds
      of every sequence of calls. */
  class EvidenceStore {
    var committed: Database
    /** The candidate that holds the write transaction, if one is open. */
    var writer: CandidateSnapshot?

    ghost predicate Consistent()
      reads this, writer
    {
      && Runs.Coherent(State())
      && (writer != null ==> writer.store == this)
    }

    ghost function State(): Runs.State
      reads this, writer
    {
      Runs.State(committed, if writer == null then None else Some(writer.Open()))
    }

    constructor ()
      ensures Consistent() && State() == INITIAL
    {
      committed := EMPTY;
      writer := null;
    }

    /** Opens a write transaction; an existing snapshot id is refused and nothing changes. */
    method BeginCandidate(id: string, createdAt: string) returns (r: Result<CandidateSnapshot, StoreError>)
      requires Consistent() && writer == null
      modifies this
      ensures Consistent()
      ensures State() == Apply(old(State()), Begin(id, createdAt))
      ensures r.Ok? <==> id !in old(committed).snapshots
      ensures r.Ok? ==>
                && fresh(r.value) && writer == r.value
                && r.value.store == this && r.value.snapshotId == id && r.value.createdAt == createdAt
                && Ok(r.value.working) == Tables.BeginCandidate(old(committed), id, createdAt)
                && committed == old(committed)
                && r.value.working.snapshots.Keys == committed.snapshots.Keys + {id}
                && r.value.working.snapshots[id] == Snapshot(createdAt, None, {}, {}, {}, map[], [])
      ensures r.Err? ==> r.error == Constraint && writer == null
    {
      BeginStatement(committed, id, createdAt);
      var begun := Tables.BeginCandidate(committed, id, createdAt);
      if begun.Err? {
        return Err(begun.error);
      }
      var candidate := new CandidateSnapshot(this, begun.value, id, createdAt);
      writer := candidate;
      r := Ok(candidate);
    }

    method CurrentSnapshotId() returns (id: Option<string>)
      ensures id == committed.current
    {
      id := committed.current;
    }

    method SourceCursor(source: string) returns (cursor: Option<string>)
      ensures cursor == StoredCursor(committed, source)
    {
      cursor := if source in committed.cursors then Some(committed.cursors[source].cursor) else None;
    }

    method LoadCurrentSlice(limits: Limits) returns (r: Result<Option<GraphSlice>, StoreError>)
      ensures r == CurrentSlice(committed, limits)
      ensures CommittedValid(committed) ==> LoadsCurrent(committed, limits, r)
    {
      if CommittedValid(committed) {
        CurrentSliceMeaning(committed, limits);
      }
      if committed.current.None? {
        return Ok(None);
      }
      var sid := committed.current.value;
      r := Bounded(sid, EvidenceOf(committed, sid), SourcesOf(committed, sid), limits);
    }

    method LoadCurrentProofSlice(seeds: seq<string>, limits: Limits)
      returns (r: Result<Option<GraphSlice>, StoreError>)
      ensures r == ProofSlice(committed, seeds, limits)
    {
      if |seeds| > limits.maxNodes {
        return Err(SliceLimitExceeded("nodes", |seeds|, limits.maxNodes));
      }
      if committed.current.None? {
        return Ok(None);
      }
      var sid := committed.current.value;
      var evidence := EvidenceOf(committed, sid);
      var reached := Reach(evidence, Elements(seeds));
      r := Bounded(sid, Restrict(evidence, reached), SourcesOf(committed, sid), limits);
    }
  }

  /** One open write transaction. */
  class CandidateSnapshot {
    const store: EvidenceStore
    const snapshotId: string
    const createdAt: string
    var working: Database

    constructor (store: EvidenceStore, working: Database, snapshotId: string, createdAt: string)
      ensures this.store == store && this.working == working
      ensures this.snapshotId == snapshotId && this.createdAt == createdAt
    {
      this.store := store;
      this.working := working;
      this.snapshotId := snapshotId;
      this.createdAt := createdAt;
    }

    ghost function Open(): Runs.Open
      reads this
    {
      Runs.Open(snapshotId, createdAt, working)
    }

    ghost predicate IsOpen()
      reads this, store, store.writer
    {
      store.writer == this && store.Consistent()
    }

    method InsertRecord(node: Node) returns (r: Result<(), StoreError>)
      requires IsOpen()
      modifies this`working
      ensures IsOpen()
      ensures store.State() == Apply(old(store.State()), PutRecord(node))
      ensures Open() == Edit(old(Open()), PutRecord(node))
      ensures r == Outcome(Tables.InsertRecord(old(working), snapshotId, createdAt, node))
      ensures r.Ok? <==> node.id in old(working).records ==> old(working).records[node.id].content == node
      ensures r.Err? ==> r.error == ContentMismatch("records", node.id)
      ensures r.Ok? ==>
                && OthersKept(old(working), working, snapshotId)
                && RowAdded(old(working).records, working.records, node.id, Row(node, createdAt))
                && working.edges == old(working).edges && working.conflicts == old(working).conflicts
    {
      RecordStatement(working, snapshotId, createdAt, node);
      var inserted := Tables.InsertRecord(working, snapshotId, createdAt, node);
      if inserted.Err? {
        return Err(inserted.error);
      }
      working := inserted.value;
      r := Ok(());
    }

    method InsertEdge(edge: Edge) returns (r: Result<(), StoreError>)
      requires IsOpen()
      modifies this`working
      ensures IsOpen()
      ensures store.State() == Apply(old(store.State()), PutEdge(edge))
      ensures Open() == Edit(old(Open()), PutEdge(edge))
      ensures r == Outcome(Tables.InsertEdge(old(working), snapshotId, createdAt, edge))
      ensures r.Err? ==>
                || r.error == ContentMismatch("edges", edge.id)
                || (r.error == Constraint
                    && !(edge.sourceId in old(working).records && edge.targetId in old(working).records))
      ensures r.Ok? ==>
                && OthersKept(old(working), working, snapshotId)
                && RowAdded(old(working).edges, working.edges, edge.id, Row(edge, createdAt))
                && working.records == old(working).records && working.conflicts == old(working).conflicts
    {
      EdgeStatement(working, snapshotId, createdAt, edge);
      var inserted := Tables.InsertEdge(working, snapshotId, createdAt, edge);
      if inserted.Err? {
        return Err(inserted.error);
      }
      working := inserted.value;
      r := Ok(());
    }

    method InsertConflict(conflict: Conflict) returns (r: Result<(), StoreError>)
      requires IsOpen()
      modifies this`working
      ensures IsOpen()
      ensures store.State() == Apply(old(store.State()), PutConflict(conflict))
      ensures Open() == Edit(old(Open()), PutConflict(conflict))
      ensures r == Outcome(Tables.InsertConflict(old(working), snapshotId, createdAt, conflict))
      ensures r.Err? ==>
                r.error == Constraint
                && !(conflict.leftNodeId in old(working).records && conflict.rightNodeId in old(working).records)
      ensures r.Ok? ==>
                && OthersKept(old(working), working, snapshotId)
                && working.conflicts.Keys == old(working).conflicts.Keys + {conflict}
                && (conflict !in old(working).conflicts ==> working.conflicts[conflict] == createdAt)
                && working.records == old(working).records && working.edges == old(working).edges
    {
      ConflictStatement(working, snapshotId, createdAt, conflict);
      var inserted := Tables.InsertConflict(working, snapshotId, createdAt, conflict);
      if inserted.Err? {
        return Err(inserted.error);
      }
      working := inserted.value;
      r := Ok(());
    }

    method SetSourceState(source: SourceState)
      requires IsOpen()
      modifies this`working
      ensures IsOpen()
      ensures store.State() == Apply(old(store.State()), PutSource(source))
      ensures Open() == Edit(old(Open()), PutSource(source))
      ensures OthersKept(old(working), working, snapshotId)
      ensures working.snapshots[snapshotId].sources.Keys
              == old(working).snapshots[snapshotId].sources.Keys + {source.sourceId}
      ensures working.snapshots[snapshotId].sources[source.sourceId] == source
    {
      SourceStatement(working, snapshotId, source);
      working := Tables.SetSourceState(working, snapshotId, source);
    }

    method Quarantine(diagnostic: Diagnostic)
      requires IsOpen()
      modifies this`working
      ensures IsOpen()
      ensures store.State() == Apply(old(store.State()), PutDiagnostic(diagnostic))
      ensures Open() == Edit(old(Open()), PutDiagnostic(diagnostic))
      ensures OthersKept(old(working), working, snapshotId)
      ensures working.snapshots[snapshotId].quarantined
              == old(working).snapshots[snapshotId].quarantined + [diagnostic]
    {
      DiagnosticStatement(working, snapshotId, diagnostic);
      working := Tables.Quarantine(working, snapshotId, diagnostic);
    }

    /** Commits everything or nothing; either way the transaction is over. */
    method Publish(publishedAt: string) returns (r: Result<(), StoreError>)
      requires IsOpen()
      modifies store
      ensures store.Consistent() && store.writer == null
      ensures store.State() == Apply(old(store.State()), Commit(publishedAt))
      ensures r.Ok? <==> Publishes(old(store.State()), Commit(publishedAt))
      ensures r.Ok? <==> Resolved(old(working), snapshotId)
      ensures r.Ok? ==> Ok(store.committed) == Tables.Publish(old(working), snapshotId, publishedAt)
      ensures r.Err? ==>
                && !Resolved(old(working), snapshotId)
                && r.error == UnresolvedReference(FirstLeaving(old(working), snapshotId))
                && store.committed == old(store.committed)
    {
      var published := Tables.Publish(working, snapshotId, publishedAt);
      store.writer := null;
      if published.Err? {
        return Err(published.error);
      }
      store.committed := published.value;
      r := Ok(());
    }

    method Abandon()
      requires IsOpen()
      modifies store
      ensures store.Consistent() && store.writer == null
      ensures store.State() == Apply(old(store.State()), Rollback)
      ensures store.committed == old(store.committed)
    {
      store.writer := null;
    }
  }
}
