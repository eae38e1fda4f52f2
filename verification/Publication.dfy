/** Publishing prepared evidence: all of it or nothing, and never with a dangling reference. */
module Publication {
  import opened Wrappers
  import opened Sequences
  import opened Ordering
  import opened Model
  import opened Proof
  import opened Graph
  import opened Tables
  import opened Runs
  import opened Reachable
  import opened Engine
  import opened Store

  // ----- the statements of one publication, as a function of the candidate

  function PutAllRecords(c: Open, nodes: seq<Node>): (r: Result<Open, StoreError>)
    requires c.snapshotId in c.working.snapshots
    ensures r.Ok? ==> r.value.snapshotId == c.snapshotId && c.snapshotId in r.value.working.snapshots
    decreases |nodes|
  {
    if nodes == [] then Ok(c)
    else
      var put := InsertRecord(c.working, c.snapshotId, c.createdAt, nodes[0]);
      if put.Err? then Err(put.error) else PutAllRecords(Edit(c, PutRecord(nodes[0])), nodes[1..])
  }

  function PutAllEdges(c: Open, edges: seq<Edge>): (r: Result<Open, StoreError>)
    requires c.snapshotId in c.working.snapshots
    ensures r.Ok? ==> r.value.snapshotId == c.snapshotId && c.snapshotId in r.value.working.snapshots
    decreases |edges|
  {
    if edges == [] then Ok(c)
    else
      var put := InsertEdge(c.working, c.snapshotId, c.createdAt, edges[0]);
      if put.Err? then Err(put.error) else PutAllEdges(Edit(c, PutEdge(edges[0])), edges[1..])
  }

  function PutAllConflicts(c: Open, conflicts: seq<Conflict>): (r: Result<Open, StoreError>)
    requires c.snapshotId in c.working.snapshots
    ensures r.Ok? ==> r.value.snapshotId == c.snapshotId && c.snapshotId in r.value.working.snapshots
    decreases |conflicts|
  {
    if conflicts == [] then Ok(c)
    else
      var put := InsertConflict(c.working, c.snapshotId, c.createdAt, conflicts[0]);
      if put.Err? then Err(put.error) else PutAllConflicts(Edit(c, PutConflict(conflicts[0])), conflicts[1..])
  }

  function PutAllSources(c: Open, sources: seq<SourceState>): (r: Open)
    requires c.snapshotId in c.working.snapshots
    ensures r.snapshotId == c.snapshotId && c.snapshotId in r.working.snapshots
    decreases |sources|
  {
    if sources == [] then c else PutAllSources(Edit(c, PutSource(sources[0])), sources[1..])
  }

  function PutAllDiagnostics(c: Open, diagnostics: seq<Diagnostic>): (r: Open)
    requires c.snapshotId in c.working.snapshots
    ensures r.snapshotId == c.snapshotId && c.snapshotId in r.working.snapshots
    decreases |diagnostics|
  {
    if diagnostics == [] then c else PutAllDiagnostics(Edit(c, PutDiagnostic(diagnostics[0])), diagnostics[1..])
  }

  // ----- what the statements achieve

  function Candidate(c: Open): Snapshot
    requires c.snapshotId in c.working.snapshots
  {
    c.working.snapshots[c.snapshotId]
  }

  /** The graph tables apart from the record rows are untouched. */
  ghost predicate OnlyRecords(c: Open, d: Open)
    requires c.snapshotId in c.working.snapshots && d.snapshotId in d.working.snapshots
  {
    && d.snapshotId == c.snapshotId
    && d.working.edges == c.working.edges && d.working.conflicts == c.working.conflicts
    && Candidate(d).edges == Candidate(c).edges && Candidate(d).conflicts == Candidate(c).conflicts
    && SameReports(c, d)
  }

  ghost predicate SameReports(c: Open, d: Open)
    requires c.snapshotId in c.working.snapshots && d.snapshotId in d.working.snapshots
  {
    Candidate(d).sources == Candidate(c).sources && Candidate(d).quarantined == Candidate(c).quarantined
  }

  lemma {:induction false} RecordsPut(c: Open, nodes: seq<Node>)
    requires c.snapshotId in c.working.snapshots
    ensures var r := PutAllRecords(c, nodes);
            if r.Err? then r.error.ContentMismatch?
            else
              && OnlyRecords(c, r.value)
              && Candidate(r.value).records == Candidate(c).records + (set n | n in nodes :: n.id)
              && (forall id :: id in c.working.records ==>
                    id in r.value.working.records && r.value.working.records[id] == c.working.records[id])
              && (forall n :: n in nodes ==>
                    n.id in r.value.working.records && r.value.working.records[n.id].content == n)
    decreases |nodes|
  {
    if nodes != [] {
      var put := InsertRecord(c.working, c.snapshotId, c.createdAt, nodes[0]);
      if put.Ok? {
        RecordsPut(Edit(c, PutRecord(nodes[0])), nodes[1..]);
        assert (set n | n in nodes :: n.id) == {nodes[0].id} + set n | n in nodes[1..] :: n.id;
      }
    }
  }

  /** Rows with one id have one content. */
  ghost predicate NodesKeyed(nodes: seq<Node>) {
    forall a, b :: a in nodes && b in nodes && a.id == b.id ==> a == b
  }

  /** The stored row with the node's id, if any, has the node's content. */
  ghost predicate NodeAgrees(db: Database, n: Node) {
    n.id in db.records ==> db.records[n.id].content == n
  }

  lemma RecordsStillAgree(c: Open, first: Node, rest: seq<Node>)
    requires c.snapshotId in c.working.snapshots && NodeAgrees(c.working, first)
    requires forall n :: n in rest && n.id == first.id ==> n == first
    ensures forall n :: n in rest ==>
              (NodeAgrees(Edit(c, PutRecord(first)).working, n) <==> NodeAgrees(c.working, n))
  {
  }

  lemma EdgesStillAgree(c: Open, first: Edge, rest: seq<Edge>)
    requires c.snapshotId in c.working.snapshots && EdgeAgrees(c.working, first)
    requires first.sourceId in c.working.records && first.targetId in c.working.records
    requires forall e :: e in rest && e.id == first.id ==> e == first
    ensures Edit(c, PutEdge(first)).working.records == c.working.records
    ensures forall e :: e in rest ==>
              (EdgeAgrees(Edit(c, PutEdge(first)).working, e) <==> EdgeAgrees(c.working, e))
  {
  }

  /** Records are refused exactly when a stored id would change content, and the error names
      such an id. */
  lemma {:induction false} RecordsAccepted(c: Open, nodes: seq<Node>)
    requires c.snapshotId in c.working.snapshots && NodesKeyed(nodes)
    ensures PutAllRecords(c, nodes).Ok? <==> forall n :: n in nodes ==> NodeAgrees(c.working, n)
    ensures PutAllRecords(c, nodes).Err? ==>
              exists n :: n in nodes && !NodeAgrees(c.working, n)
                          && PutAllRecords(c, nodes).error == ContentMismatch("records", n.id)
    decreases |nodes|
  {
    if nodes != [] {
      var first, rest := nodes[0], nodes[1..];
      assert forall n :: n in rest ==> n in nodes;
      assert forall n :: n in nodes <==> n == first || n in rest;
      if NodeAgrees(c.working, first) {
        RecordsAccepted(Edit(c, PutRecord(first)), rest);
        RecordsStillAgree(c, first, rest);
      }
    }
  }

  ghost predicate OnlyEdges(c: Open, d: Open)
    requires c.snapshotId in c.working.snapshots && d.snapshotId in d.working.snapshots
  {
    && d.snapshotId == c.snapshotId
    && d.working.records == c.working.records && d.working.conflicts == c.working.conflicts
    && Candidate(d).records == Candidate(c).records && Candidate(d).conflicts == Candidate(c).conflicts
    && SameReports(c, d)
  }

  lemma {:induction false} EdgesPut(c: Open, edges: seq<Edge>)
    requires c.snapshotId in c.working.snapshots
    requires forall e :: e in edges ==> e.sourceId in c.working.records && e.targetId in c.working.records
    ensures var r := PutAllEdges(c, edges);
            if r.Err? then r.error.ContentMismatch?
            else
              && OnlyEdges(c, r.value)
              && Candidate(r.value).edges == Candidate(c).edges + (set e | e in edges :: e.id)
              && (forall id :: id in c.working.edges ==>
                    id in r.value.working.edges && r.value.working.edges[id] == c.working.edges[id])
              && (forall e :: e in edges ==>
                    e.id in r.value.working.edges && r.value.working.edges[e.id].content == e)
    decreases |edges|
  {
    if edges != [] {
      var put := InsertEdge(c.working, c.snapshotId, c.createdAt, edges[0]);
      if put.Ok? {
        EdgesPut(Edit(c, PutEdge(edges[0])), edges[1..]);
        assert (set e | e in edges :: e.id) == {edges[0].id} + set e | e in edges[1..] :: e.id;
      }
    }
  }

  ghost predicate EdgesKeyed(edges: seq<Edge>) {
    forall a, b :: a in edges && b in edges && a.id == b.id ==> a == b
  }

  ghost predicate EdgeAgrees(db: Database, e: Edge) {
    e.id in db.edges ==> db.edges[e.id].content == e
  }

  lemma {:induction false} EdgesAccepted(c: Open, edges: seq<Edge>)
    requires c.snapshotId in c.working.snapshots && EdgesKeyed(edges)
    requires forall e :: e in edges ==> e.sourceId in c.working.records && e.targetId in c.working.records
    ensures PutAllEdges(c, edges).Ok? <==> forall e :: e in edges ==> EdgeAgrees(c.working, e)
    ensures PutAllEdges(c, edges).Err? ==>
              exists e :: e in edges && !EdgeAgrees(c.working, e)
                          && PutAllEdges(c, edges).error == ContentMismatch("edges", e.id)
    decreases |edges|
  {
    if edges != [] {
      var first, rest := edges[0], edges[1..];
      assert forall e :: e in rest ==> e in edges;
      assert forall e :: e in edges <==> e == first || e in rest;
      if EdgeAgrees(c.working, first) {
        EdgesStillAgree(c, first, rest);
        EdgesAccepted(Edit(c, PutEdge(first)), rest);
      }
    }
  }

  ghost predicate OnlyConflicts(c: Open, d: Open)
    requires c.snapshotId in c.working.snapshots && d.snapshotId in d.working.snapshots
  {
    && d.snapshotId == c.snapshotId
    && d.working.records == c.working.records && d.working.edges == c.working.edges
    && Candidate(d).records == Candidate(c).records && Candidate(d).edges == Candidate(c).edges
    && SameReports(c, d)
  }

  lemma {:induction false} ConflictsPut(c: Open, conflicts: seq<Conflict>)
    requires c.snapshotId in c.working.snapshots
    requires forall x :: x in conflicts ==> x.leftNodeId in c.working.records && x.rightNodeId in c.working.records
    ensures var r := PutAllConflicts(c, conflicts);
            && r.Ok?
            && OnlyConflicts(c, r.value)
            && Candidate(r.value).conflicts == Candidate(c).conflicts + Elements(conflicts)
            && (forall x :: x in c.working.conflicts || x in conflicts ==> x in r.value.working.conflicts)
    decreases |conflicts|
  {
    if conflicts != [] {
      ConflictsPut(Edit(c, PutConflict(conflicts[0])), conflicts[1..]);
      assert Elements(conflicts) == {conflicts[0]} + Elements(conflicts[1..]);
    }
  }

  /** The whole graph is untouched. */
  ghost predicate SameGraph(c: Open, d: Open)
    requires c.snapshotId in c.working.snapshots && d.snapshotId in d.working.snapshots
  {
    && d.snapshotId == c.snapshotId
    && d.working.records == c.working.records && d.working.edges == c.working.edges
    && d.working.conflicts == c.working.conflicts
    && Candidate(d).records == Candidate(c).records && Candidate(d).edges == Candidate(c).edges
    && Candidate(d).conflicts == Candidate(c).conflicts
  }

  lemma {:induction false} SourcesPut(c: Open, sources: seq<SourceState>)
    requires c.snapshotId in c.working.snapshots
    ensures SameGraph(c, PutAllSources(c, sources))
    ensures var before, after := Candidate(c), Candidate(PutAllSources(c, sources));
            && after.quarantined == before.quarantined
            && after.sources.Keys == before.sources.Keys + (set s | s in sources :: s.sourceId)
            && forall id :: id in after.sources ==>
                 || (after.sources[id] in sources && after.sources[id].sourceId == id)
                 || (id in before.sources && after.sources[id] == before.sources[id])
    decreases |sources|
  {
    if sources != [] {
      SourcesPut(Edit(c, PutSource(sources[0])), sources[1..]);
      assert (set s | s in sources :: s.sourceId) == {sources[0].sourceId} + set s | s in sources[1..] :: s.sourceId;
    }
  }

  lemma {:induction false} DiagnosticsPut(c: Open, diagnostics: seq<Diagnostic>)
    requires c.snapshotId in c.working.snapshots
    ensures SameGraph(c, PutAllDiagnostics(c, diagnostics))
    ensures Candidate(PutAllDiagnostics(c, diagnostics)).quarantined == Candidate(c).quarantined + diagnostics
    ensures Candidate(PutAllDiagnostics(c, diagnostics)).sources == Candidate(c).sources
    decreases |diagnostics|
  {
    if diagnostics != [] {
      DiagnosticsPut(Edit(c, PutDiagnostic(diagnostics[0])), diagnostics[1..]);
    }
  }

  /** One state for each source that was reported, and all diagnostics in order. */
  ghost predicate Recorded(s: Snapshot, sources: seq<SourceState>, diagnostics: seq<Diagnostic>) {
    && s.sources.Keys == (set x | x in sources :: x.sourceId)
    && (forall id :: id in s.sources ==> s.sources[id] in sources && s.sources[id].sourceId == id)
    && s.quarantined == diagnostics
  }

  // ----- when the evidence is accepted

  /** No immutable record id would change content. */
  ghost predicate RecordsAgree(db: Database, body: Body) {
    forall id :: id in body.records && id in db.records ==> db.records[id].content == body.records[id]
  }

  ghost predicate EdgesAgree(db: Database, body: Body) {
    forall id :: id in body.edges && id in db.edges ==> db.edges[id].content == body.edges[id]
  }

  ghost predicate ContentAgrees(db: Database, body: Body) {
    RecordsAgree(db, body) && EdgesAgree(db, body)
  }

  ghost predicate RecordChanges(db: Database, body: Body, id: string) {
    id in body.records && id in db.records && db.records[id].content != body.records[id]
  }

  ghost predicate EdgeChanges(db: Database, body: Body, id: string) {
    id in body.edges && id in db.edges && db.edges[id].content != body.edges[id]
  }

  /** The error names an immutable id whose stored content differs; records come first. */
  ghost predicate NamesChange(db: Database, body: Body, error: StoreError) {
    && error.ContentMismatch?
    && if RecordsAgree(db, body)
       then error.kind == "edges" && EdgeChanges(db, body, error.id)
       else error.kind == "records" && RecordChanges(db, body, error.id)
  }

  // ----- the candidate holds exactly the evidence

  /** The candidate's snapshot is the given graph, and its rows carry the given contents. */
  ghost predicate Holds(c: Open, body: Body) {
    && c.snapshotId in c.working.snapshots
    && Candidate(c).records == body.records.Keys
    && Candidate(c).edges == body.edges.Keys
    && Candidate(c).conflicts == Elements(body.conflicts)
    && (forall id :: id in body.records ==>
          id in c.working.records && c.working.records[id].content == body.records[id])
    && (forall id :: id in body.edges ==>
          id in c.working.edges && c.working.edges[id].content == body.edges[id])
    && (forall x :: x in body.conflicts ==> x in c.working.conflicts)
  }

  /** All statements up to publication; stops at the first failure. */
  function Filled(c: Open, body: Body, sources: seq<SourceState>, diagnostics: seq<Diagnostic>)
    : (r: Result<Open, StoreError>)
    requires c.snapshotId in c.working.snapshots
    ensures r.Ok? ==> r.value.snapshotId == c.snapshotId && c.snapshotId in r.value.working.snapshots
  {
    match PutAllRecords(c, Values(body.records))
    case Err(error) => Err(error)
    case Ok(withRecords) =>
      match PutAllEdges(withRecords, Values(body.edges))
      case Err(error) => Err(error)
      case Ok(withEdges) =>
        match PutAllConflicts(withEdges, body.conflicts)
        case Err(error) => Err(error)
        case Ok(withConflicts) =>
          Ok(PutAllDiagnostics(PutAllSources(withConflicts, sources), diagnostics))
  }

  ghost predicate EmptyCandidate(c: Open) {
    && c.snapshotId in c.working.snapshots
    && Candidate(c).records == {} && Candidate(c).edges == {} && Candidate(c).conflicts == {}
    && Candidate(c).sources == map[] && Candidate(c).quarantined == []
  }

  lemma RecordIds(body: Body)
    requires ClosedBody(body)
    ensures (set n | n in Values(body.records) :: n.id) == body.records.Keys
    ensures forall n :: n in Values(body.records) <==> n.id in body.records && body.records[n.id] == n
  {
    NodeValuesMembers(body.records);
    assert forall id :: id in body.records ==> body.records[id] in Values(body.records);
  }

  lemma EdgeIdsOf(body: Body)
    requires ClosedBody(body)
    ensures (set e | e in Values(body.edges) :: e.id) == body.edges.Keys
    ensures forall e :: e in Values(body.edges) <==> e.id in body.edges && body.edges[e.id] == e
  {
    EdgeValuesMembers(body.edges);
    assert forall id :: id in body.edges ==> body.edges[id] in Values(body.edges);
  }

  ghost predicate HoldsRecords(c: Open, body: Body) {
    && c.snapshotId in c.working.snapshots
    && Candidate(c).records == body.records.Keys
    && (forall id :: id in body.records ==>
          id in c.working.records && c.working.records[id].content == body.records[id])
  }

  lemma {:induction false} FillRecords(c: Open, body: Body)
    requires ClosedBody(body) && EmptyCandidate(c)
    ensures var r := PutAllRecords(c, Values(body.records));
            && (r.Ok? <==> RecordsAgree(c.working, body))
            && (r.Err? ==> NamesChange(c.working, body, r.error))
            && (r.Ok? ==> HoldsRecords(r.value, body) && OnlyRecords(c, r.value))
  {
    BodyRecordsAccepted(c, body);
    if RecordsAgree(c.working, body) {
      RecordsHeld(c, body, Values(body.records));
    }
  }

  lemma RecordsWritten(c: Open, nodes: seq<Node>)
    requires EmptyCandidate(c) && PutAllRecords(c, nodes).Ok?
    ensures var r := PutAllRecords(c, nodes).value;
            && OnlyRecords(c, r)
            && Candidate(r).records == (set n | n in nodes :: n.id)
            && (forall n :: n in nodes ==> n.id in r.working.records && r.working.records[n.id].content == n)
  {
    RecordsPut(c, nodes);
  }

  lemma RecordsHeld(c: Open, body: Body, nodes: seq<Node>)
    requires ClosedBody(body) && EmptyCandidate(c) && nodes == Values(body.records)
    requires PutAllRecords(c, nodes).Ok?
    ensures HoldsRecords(PutAllRecords(c, nodes).value, body) && OnlyRecords(c, PutAllRecords(c, nodes).value)
  {
    RecordsWritten(c, nodes);
    RecordIds(body);
    RowsHeld(PutAllRecords(c, nodes).value, body, nodes);
  }

  lemma RowsHeld(c: Open, body: Body, nodes: seq<Node>)
    requires c.snapshotId in c.working.snapshots
    requires Candidate(c).records == body.records.Keys
    requires forall n :: n in nodes <==> n.id in body.records && body.records[n.id] == n
    requires forall n :: n in nodes ==> n.id in c.working.records && c.working.records[n.id].content == n
    requires forall id :: id in body.records ==> body.records[id].id == id
    ensures HoldsRecords(c, body)
  {
    assert forall id :: id in body.records ==> body.records[id] in nodes;
  }

  lemma BodyRecordsAccepted(c: Open, body: Body)
    requires ClosedBody(body) && c.snapshotId in c.working.snapshots
    ensures var r := PutAllRecords(c, Values(body.records));
            && (r.Ok? <==> RecordsAgree(c.working, body))
            && (r.Err? ==> NamesChange(c.working, body, r.error))
  {
    var nodes := Values(body.records);
    RecordIds(body);
    RecordsAccepted(c, nodes);
    assert forall id :: id in body.records ==> body.records[id] in nodes && body.records[id].id == id;
    assert (forall n :: n in nodes ==> NodeAgrees(c.working, n)) <==> RecordsAgree(c.working, body);
  }

  /** `edges` lists the values of `m`, and their endpoints are stored. */
  ghost predicate EdgeRows(c: Open, m: map<string, Edge>, edges: seq<Edge>) {
    && (forall id :: id in m ==> m[id] in edges && m[id].id == id)
    && (forall e :: e in edges ==> e.id in m && m[e.id] == e)
    && (set e | e in edges :: e.id) == m.Keys
    && (forall e :: e in edges ==> e.sourceId in c.working.records && e.targetId in c.working.records)
  }

  lemma BodyEdgeRows(c: Open, body: Body)
    requires ClosedBody(body) && HoldsRecords(c, body)
    ensures EdgeRows(c, body.edges, Values(body.edges))
  {
    EdgeIdsOf(body);
  }

  ghost predicate HoldsEdges(c: Open, d: Open, m: map<string, Edge>)
    requires c.snapshotId in c.working.snapshots && d.snapshotId in d.working.snapshots
  {
    && OnlyEdges(c, d)
    && Candidate(d).edges == m.Keys
    && (forall id :: id in m ==> id in d.working.edges && d.working.edges[id].content == m[id])
  }

  lemma FillEdges(c: Open, m: map<string, Edge>, edges: seq<Edge>)
    requires c.snapshotId in c.working.snapshots && Candidate(c).edges == {}
    requires EdgeRows(c, m, edges)
    ensures var r := PutAllEdges(c, edges);
            && (r.Ok? <==> forall id :: id in m ==> EdgeAgrees(c.working, m[id]))
            && (r.Err? ==> exists id :: id in m && !EdgeAgrees(c.working, m[id])
                                        && r.error == ContentMismatch("edges", id))
            && (r.Ok? ==> HoldsEdges(c, r.value, m))
  {
    EdgesPut(c, edges);
    EdgesAccepted(c, edges);
  }

  /** Closed evidence is accepted exactly when no immutable id would change content, and then
      the candidate ends up holding exactly that evidence; a refusal names such an id. */
  lemma FillHolds(c: Open, body: Body, sources: seq<SourceState>, diagnostics: seq<Diagnostic>)
    requires ClosedBody(body) && EmptyCandidate(c)
    ensures var r := Filled(c, body, sources, diagnostics);
            && (r.Ok? <==> ContentAgrees(c.working, body))
            && (r.Ok? ==> Holds(r.value, body) && Recorded(Candidate(r.value), sources, diagnostics))
            && (r.Err? ==> NamesChange(c.working, body, r.error))
  {
    FillRecords(c, body);
    var records := PutAllRecords(c, Values(body.records));
    if records.Ok? {
      FillBodyEdges(c, records.value, body);
      var edges := PutAllEdges(records.value, Values(body.edges));
      if edges.Ok? {
        FillReports(edges.value, body, sources, diagnostics);
      }
    }
  }

  ghost predicate HoldsGraph(c: Open, body: Body) {
    && HoldsRecords(c, body)
    && Candidate(c).edges == body.edges.Keys && Candidate(c).conflicts == {}
    && (forall id :: id in body.edges ==>
          id in c.working.edges && c.working.edges[id].content == body.edges[id])
    && Candidate(c).sources == map[] && Candidate(c).quarantined == []
  }

  lemma FillReports(c: Open, body: Body, sources: seq<SourceState>, diagnostics: seq<Diagnostic>)
    requires ClosedBody(body) && HoldsGraph(c, body)
    ensures PutAllConflicts(c, body.conflicts).Ok?
    ensures var d := PutAllDiagnostics(PutAllSources(PutAllConflicts(c, body.conflicts).value, sources), diagnostics);
            Holds(d, body) && Recorded(Candidate(d), sources, diagnostics)
  {
    ConflictsPut(c, body.conflicts);
    var conflicts := PutAllConflicts(c, body.conflicts).value;
    SourcesPut(conflicts, sources);
    DiagnosticsPut(PutAllSources(conflicts, sources), diagnostics);
  }

  lemma FillBodyEdges(c: Open, withRecords: Open, body: Body)
    requires ClosedBody(body) && EmptyCandidate(c) && RecordsAgree(c.working, body)
    requires HoldsRecords(withRecords, body) && OnlyRecords(c, withRecords)
    ensures var r := PutAllEdges(withRecords, Values(body.edges));
            && (r.Ok? <==> EdgesAgree(c.working, body))
            && (r.Err? ==> NamesChange(c.working, body, r.error))
            && (r.Ok? ==> HoldsEdges(withRecords, r.value, body.edges))
  {
    BodyEdgeRows(withRecords, body);
    FillEdges(withRecords, body.edges, Values(body.edges));
  }

  lemma HeldIsResolved(c: Open, body: Body)
    requires ClosedBody(body) && Holds(c, body)
    ensures Resolved(c.working, c.snapshotId)
  {
  }

  function EvidenceBody(body: Body): Evidence {
    Evidence(body.records, body.edges, Elements(body.conflicts))
  }

  /** Publishing what is held makes the stored snapshot equal to the evidence. */
  lemma HeldIsStored(c: Open, body: Body, publishedAt: string)
    requires ClosedBody(body) && Holds(c, body)
    ensures Tables.Publish(c.working, c.snapshotId, publishedAt).Ok?
    ensures var db := Tables.Publish(c.working, c.snapshotId, publishedAt).value;
            EvidenceOf(db, c.snapshotId) == EvidenceBody(body)
  {
    HeldIsResolved(c, body);
    var db := Tables.Publish(c.working, c.snapshotId, publishedAt).value;
    var ev := EvidenceOf(db, c.snapshotId);
    assert ev.nodes == body.records;
    assert ev.edges == body.edges;
    assert ev.conflicts == Elements(body.conflicts);
  }

  // ----- reading the forge contribution back

  const SYNC_LIMITS := Limits(100_000, 100_000, 100_000)

  /** What a synchronisation without the forge carries over from the last one. */
  datatype Prior = Prior(contribution: Contribution, source: Option<SourceState>)

  const NO_PRIOR := Prior(Contribution([], []), None)

  function FindSource(sources: seq<SourceState>, sourceId: string): (r: Option<SourceState>)
    ensures r.Some? ==> r.value in sources && r.value.sourceId == sourceId
    ensures r.None? ==> forall x :: x in sources ==> x.sourceId != sourceId
  {
    if sources == [] then None
    else if sources[0].sourceId == sourceId then Some(sources[0])
    else FindSource(sources[1..], sourceId)
  }

  function PriorOf(slice: GraphSlice, sourceId: string): Prior {
    Prior(
      Contribution(
        Filter((n: Node) => FromForge(n.origin), slice.nodes),
        Filter((e: Edge) => FromForge(e.origin), slice.edges)),
      FindSource(slice.sources, sourceId))
  }

  /** The records and edges of forge origin of the current snapshot, and the source's state. */
  ghost predicate IsPrior(db: Database, sourceId: string, prior: Prior)
    requires CommittedValid(db)
  {
    match db.current
    case None => prior == NO_PRIOR
    case Some(sid) =>
      var s := db.snapshots[sid];
      && (forall n :: n in prior.contribution.records <==>
            n.id in s.records && n.id in db.records && db.records[n.id].content == n
            && n.origin.sourceKind == GitHub)
      && (forall e :: e in prior.contribution.edges <==>
            e.id in s.edges && e.id in db.edges && db.edges[e.id].content == e
            && e.origin.sourceKind == GitHub)
      && prior.source == (if sourceId in s.sources then Some(s.sources[sourceId]) else None)
  }

  method PriorGitHubContribution(store: EvidenceStore, sourceId: string) returns (r: Result<Prior, StoreError>)
    requires CommittedValid(store.committed)
    ensures r.Ok? ==> IsPrior(store.committed, sourceId, r.value)
    ensures match CurrentSlice(store.committed, Limits(100_000, 100_000, 100_000))
            case Err(error) => r == Err(error)
            case Ok(None) => r == Ok(NO_PRIOR)
            case Ok(Some(slice)) => r == Ok(PriorOf(slice, sourceId))
  {
    var loaded := store.LoadCurrentSlice(SYNC_LIMITS);
    if loaded.Err? {
      return Err(loaded.error);
    }
    if loaded.value.None? {
      return Ok(NO_PRIOR);
    }
    PriorMeaning(store.committed, loaded.value.value, sourceId);
    r := Ok(PriorOf(loaded.value.value, sourceId));
  }

  lemma PriorRows(db: Database, s: Snapshot, slice: GraphSlice, sourceId: string)
    requires ListsRecords(db, s, slice.nodes) && ListsEdges(db, s, slice.edges)
    ensures var c := PriorOf(slice, sourceId).contribution;
            && (forall n :: n in c.records <==>
                  n.id in s.records && n.id in db.records && db.records[n.id].content == n
                  && n.origin.sourceKind == GitHub)
            && (forall e :: e in c.edges <==>
                  e.id in s.edges && e.id in db.edges && db.edges[e.id].content == e
                  && e.origin.sourceKind == GitHub)
  {
  }

  lemma PriorSource(s: Snapshot, slice: GraphSlice, sourceId: string)
    requires ListsSources(s, slice.sources) && (sourceId in s.sources ==> s.sources[sourceId].sourceId == sourceId)
    ensures PriorOf(slice, sourceId).source == if sourceId in s.sources then Some(s.sources[sourceId]) else None
  {
    if sourceId in s.sources {
      assert s.sources[sourceId] in slice.sources;
    }
  }

  lemma PriorMeaning(db: Database, slice: GraphSlice, sourceId: string)
    requires CommittedValid(db) && db.current.Some? && ListsSnapshot(db, db.current.value, slice)
    ensures IsPrior(db, sourceId, PriorOf(slice, sourceId))
  {
    var s := db.snapshots[db.current.value];
    assert Closed(db, s);
    PriorRows(db, s, slice, sourceId);
    PriorSource(s, slice, sourceId);
  }

  /** The forge rows of a published merge, read back by the next synchronisation, rebuild it
      over the same local evidence. */
  lemma StoredContributionReproduces(
    local: Body, c: Contribution, open: Open, publishedAt: string, slice: GraphSlice, sourceId: string)
    requires ClosedBody(local) && Local(local) && Forge(c)
    requires Holds(open, Merged(local, c.records, c.edges))
    requires Tables.Publish(open.working, open.snapshotId, publishedAt).Ok?
    requires CurrentSlice(Tables.Publish(open.working, open.snapshotId, publishedAt).value, SYNC_LIMITS)
             == Ok(Some(slice))
    ensures var prior := PriorOf(slice, sourceId).contribution;
            Merged(local, prior.records, prior.edges) == Merged(local, c.records, c.edges)
  {
    var m := Merged(local, c.records, c.edges);
    MergedIsClosed(local, c.records, c.edges);
    HeldIsStored(open, m, publishedAt);
    assert PriorOf(slice, sourceId).contribution == Extracted(m);
    RemergeReproduces(local, c);
  }

  // ----- writing keeps the store's invariant

  lemma {:induction false} RecordsKeep(db: Database, c: Open, nodes: seq<Node>)
    requires CommittedValid(db) && CandidateValid(db, c) && c.snapshotId in c.working.snapshots
    requires PutAllRecords(c, nodes).Ok?
    ensures CandidateValid(db, PutAllRecords(c, nodes).value)
    decreases |nodes|
  {
    if nodes != [] {
      EditKeeps(db, c, PutRecord(nodes[0]));
      RecordsKeep(db, Edit(c, PutRecord(nodes[0])), nodes[1..]);
    }
  }

  lemma {:induction false} EdgesKeep(db: Database, c: Open, edges: seq<Edge>)
    requires CommittedValid(db) && CandidateValid(db, c) && c.snapshotId in c.working.snapshots
    requires PutAllEdges(c, edges).Ok?
    ensures CandidateValid(db, PutAllEdges(c, edges).value)
    decreases |edges|
  {
    if edges != [] {
      EditKeeps(db, c, PutEdge(edges[0]));
      EdgesKeep(db, Edit(c, PutEdge(edges[0])), edges[1..]);
    }
  }

  lemma {:induction false} ConflictsKeep(db: Database, c: Open, conflicts: seq<Conflict>)
    requires CommittedValid(db) && CandidateValid(db, c) && c.snapshotId in c.working.snapshots
    requires PutAllConflicts(c, conflicts).Ok?
    ensures CandidateValid(db, PutAllConflicts(c, conflicts).value)
    decreases |conflicts|
  {
    if conflicts != [] {
      EditKeeps(db, c, PutConflict(conflicts[0]));
      ConflictsKeep(db, Edit(c, PutConflict(conflicts[0])), conflicts[1..]);
    }
  }

  lemma {:induction false} SourcesKeep(db: Database, c: Open, sources: seq<SourceState>)
    requires CommittedValid(db) && CandidateValid(db, c) && c.snapshotId in c.working.snapshots
    ensures CandidateValid(db, PutAllSources(c, sources))
    decreases |sources|
  {
    if sources != [] {
      EditKeeps(db, c, PutSource(sources[0]));
      SourcesKeep(db, Edit(c, PutSource(sources[0])), sources[1..]);
    }
  }

  lemma {:induction false} DiagnosticsKeep(db: Database, c: Open, diagnostics: seq<Diagnostic>)
    requires CommittedValid(db) && CandidateValid(db, c) && c.snapshotId in c.working.snapshots
    ensures CandidateValid(db, PutAllDiagnostics(c, diagnostics))
    decreases |diagnostics|
  {
    if diagnostics != [] {
      EditKeeps(db, c, PutDiagnostic(diagnostics[0]));
      DiagnosticsKeep(db, Edit(c, PutDiagnostic(diagnostics[0])), diagnostics[1..]);
    }
  }

  lemma FilledKeeps(db: Database, c: Open, body: Body, sources: seq<SourceState>, diagnostics: seq<Diagnostic>)
    requires CommittedValid(db) && CandidateValid(db, c) && c.snapshotId in c.working.snapshots
    requires Filled(c, body, sources, diagnostics).Ok?
    ensures CandidateValid(db, Filled(c, body, sources, diagnostics).value)
  {
    var withRecords := PutAllRecords(c, Values(body.records)).value;
    RecordsKeep(db, c, Values(body.records));
    var withEdges := PutAllEdges(withRecords, Values(body.edges)).value;
    EdgesKeep(db, withRecords, Values(body.edges));
    var withConflicts := PutAllConflicts(withEdges, body.conflicts).value;
    ConflictsKeep(db, withEdges, body.conflicts);
    SourcesKeep(db, withConflicts, sources);
    DiagnosticsKeep(db, PutAllSources(withConflicts, sources), diagnostics);
  }

  // ----- the method

  predicate DiagnosticLess(a: Diagnostic, b: Diagnostic) {
    StringsLess([a.sourceLocator, a.code, a.message], [b.sourceLocator, b.code, b.message])
  }

  predicate SourceLess(a: SourceState, b: SourceState) {
    StringLess(a.sourceId, b.sourceId)
  }

  function Opened(db: Database, snapshotId: string, now: string): Open
    requires snapshotId !in db.snapshots
  {
    Open(snapshotId, now, Tables.BeginCandidate(db, snapshotId, now).value)
  }

  method PutRecords(candidate: CandidateSnapshot, nodes: seq<Node>) returns (r: Result<(), StoreError>)
    requires candidate.IsOpen()
    modifies candidate`working
    ensures candidate.IsOpen()
    ensures r.Ok? ==> Ok(candidate.Open()) == old(PutAllRecords(candidate.Open(), nodes))
    ensures r.Err? ==> old(PutAllRecords(candidate.Open(), nodes)) == Err(r.error)
  {
    for i := 0 to |nodes|
      invariant candidate.IsOpen()
      invariant PutAllRecords(candidate.Open(), nodes[i..]) == old(PutAllRecords(candidate.Open(), nodes))
    {
      assert nodes[i..][1..] == nodes[i + 1..];
      var put := candidate.InsertRecord(nodes[i]);
      if put.Err? {
        return Err(put.error);
      }
    }
    r := Ok(());
  }

  method PutEdgeRows(candidate: CandidateSnapshot, edges: seq<Edge>) returns (r: Result<(), StoreError>)
    requires candidate.IsOpen()
    modifies candidate`working
    ensures candidate.IsOpen()
    ensures r.Ok? ==> Ok(candidate.Open()) == old(PutAllEdges(candidate.Open(), edges))
    ensures r.Err? ==> old(PutAllEdges(candidate.Open(), edges)) == Err(r.error)
  {
    for i := 0 to |edges|
      invariant candidate.IsOpen()
      invariant PutAllEdges(candidate.Open(), edges[i..]) == old(PutAllEdges(candidate.Open(), edges))
    {
      assert edges[i..][1..] == edges[i + 1..];
      var put := candidate.InsertEdge(edges[i]);
      if put.Err? {
        return Err(put.error);
      }
    }
    r := Ok(());
  }

  method PutConflictRows(candidate: CandidateSnapshot, conflicts: seq<Conflict>) returns (r: Result<(), StoreError>)
    requires candidate.IsOpen()
    modifies candidate`working
    ensures candidate.IsOpen()
    ensures r.Ok? ==> Ok(candidate.Open()) == old(PutAllConflicts(candidate.Open(), conflicts))
    ensures r.Err? ==> old(PutAllConflicts(candidate.Open(), conflicts)) == Err(r.error)
  {
    for i := 0 to |conflicts|
      invariant candidate.IsOpen()
      invariant PutAllConflicts(candidate.Open(), conflicts[i..]) == old(PutAllConflicts(candidate.Open(), conflicts))
    {
      assert conflicts[i..][1..] == conflicts[i + 1..];
      var put := candidate.InsertConflict(conflicts[i]);
      if put.Err? {
        return Err(put.error);
      }
    }
    r := Ok(());
  }

  method PutSourceRows(candidate: CandidateSnapshot, sources: seq<SourceState>)
    requires candidate.IsOpen()
    modifies candidate`working
    ensures candidate.IsOpen()
    ensures candidate.Open() == old(PutAllSources(candidate.Open(), sources))
  {
    for i := 0 to |sources|
      invariant candidate.IsOpen()
      invariant PutAllSources(candidate.Open(), sources[i..]) == old(PutAllSources(candidate.Open(), sources))
    {
      assert sources[i..][1..] == sources[i + 1..];
      candidate.SetSourceState(sources[i]);
    }
  }

  method PutDiagnosticRows(candidate: CandidateSnapshot, diagnostics: seq<Diagnostic>)
    requires candidate.IsOpen()
    modifies candidate`working
    ensures candidate.IsOpen()
    ensures candidate.Open() == old(PutAllDiagnostics(candidate.Open(), diagnostics))
  {
    for i := 0 to |diagnostics|
      invariant candidate.IsOpen()
      invariant PutAllDiagnostics(candidate.Open(), diagnostics[i..])
                == old(PutAllDiagnostics(candidate.Open(), diagnostics))
    {
      assert diagnostics[i..][1..] == diagnostics[i + 1..];
      candidate.Quarantine(diagnostics[i]);
    }
  }

  method Fill(
    candidate: CandidateSnapshot, body: Body, sources: seq<SourceState>, diagnostics: seq<Diagnostic>)
    returns (r: Result<(), StoreError>)
    requires candidate.IsOpen()
    modifies candidate`working
    ensures candidate.IsOpen()
    ensures r.Ok? ==> Ok(candidate.Open()) == old(Filled(candidate.Open(), body, sources, diagnostics))
    ensures r.Err? ==> old(Filled(candidate.Open(), body, sources, diagnostics)) == Err(r.error)
  {
    r := PutRecords(candidate, Values(body.records));
    if r.Err? {
      return;
    }
    r := PutEdgeRows(candidate, Values(body.edges));
    if r.Err? {
      return;
    }
    r := PutConflictRows(candidate, body.conflicts);
    if r.Err? {
      return;
    }
    PutSourceRows(candidate, sources);
    PutDiagnosticRows(candidate, diagnostics);
  }

  // ----- the name of a snapshot

  /** What the name of a snapshot says about a source: not when it was observed. */
  datatype SourceMark = SourceMark(sourceId: string, sourceKind: SourceKind, freshness: Freshness, cursor: string)

  /** What a snapshot is named after. */
  datatype SnapshotMaterial = SnapshotMaterial(
    records: map<string, Node>,
    edges: map<string, Edge>,
    conflicts: seq<Conflict>,
    diagnostics: seq<Diagnostic>,
    sources: seq<SourceMark>)

  function MarkOf(source: SourceState): SourceMark {
    SourceMark(
      source.sourceId, source.sourceKind, source.freshness,
      match source.cursor case Some(cursor) => cursor case None => "")
  }

  function MaterialOf(body: Body, sources: seq<SourceState>, diagnostics: seq<Diagnostic>): SnapshotMaterial {
    SnapshotMaterial(
      body.records, body.edges, Sort(ConflictLess, body.conflicts), Sort(DiagnosticLess, diagnostics),
      Map(MarkOf, Sort(SourceLess, sources)))
  }

  // ----- publication

  /** The outcome of one synchronisation. */
  datatype Report = Unchanged | Published

  /** Evidence with its conflicts in the order they are written. */
  function Arranged(body: Body): Body {
    body.(conflicts := Sort(ConflictLess, body.conflicts))
  }

  /** The candidate once everything is written, unless the store refuses. */
  function Written(
    db: Database, body: Body, sources: seq<SourceState>, diagnostics: seq<Diagnostic>,
    snapshotId: string, now: string): (r: Result<Open, StoreError>)
    requires snapshotId !in db.snapshots
    ensures r.Ok? ==> snapshotId in r.value.working.snapshots
  {
    Filled(
      Opened(db, snapshotId, now), Arranged(body), Sort(SourceLess, sources), Sort(DiagnosticLess, diagnostics))
  }

  /** The current snapshot is `sid` and holds exactly the evidence, the source states and the
      diagnostics. */
  ghost predicate CurrentIs(
    db: Database, sid: string, body: Body, sources: seq<SourceState>, diagnostics: seq<Diagnostic>)
  {
    && db.current == Some(sid) && sid in db.snapshots
    && EvidenceOf(db, sid) == EvidenceBody(body)
    && Recorded(db.snapshots[sid], sources, Sort(DiagnosticLess, diagnostics))
  }

  /** Writing is accepted exactly when no immutable id would change content. */
  lemma WrittenExactly(
    db: Database, body: Body, sources: seq<SourceState>, diagnostics: seq<Diagnostic>,
    snapshotId: string, now: string)
    requires ClosedBody(body) && snapshotId !in db.snapshots
    ensures var r := Written(db, body, sources, diagnostics, snapshotId, now);
            && (r.Ok? <==> ContentAgrees(db, body))
            && (r.Err? ==> NamesChange(db, body, r.error))
  {
    ArrangedBody(body);
    var start := Opened(db, snapshotId, now);
    FillHolds(start, Arranged(body), Sort(SourceLess, sources), Sort(DiagnosticLess, diagnostics));
    AgreementOnContent(db, start.working, body);
  }

  lemma AgreementOnContent(db: Database, working: Database, body: Body)
    requires working.records == db.records && working.edges == db.edges
    ensures ContentAgrees(working, Arranged(body)) <==> ContentAgrees(db, body)
    ensures forall error :: NamesChange(working, Arranged(body), error) <==> NamesChange(db, body, error)
  {
  }

  /** And then publication succeeds, and the current snapshot is the evidence. */
  lemma WrittenBecomesCurrent(
    db: Database, body: Body, sources: seq<SourceState>, diagnostics: seq<Diagnostic>,
    snapshotId: string, now: string)
    requires ClosedBody(body) && snapshotId !in db.snapshots
    requires Written(db, body, sources, diagnostics, snapshotId, now).Ok?
    ensures var working := Written(db, body, sources, diagnostics, snapshotId, now).value.working;
            && Resolved(working, snapshotId)
            && CurrentIs(
                 Tables.Publish(working, snapshotId, now).value, snapshotId, body, sources, diagnostics)
  {
    ArrangedBody(body);
    FillHolds(
      Opened(db, snapshotId, now), Arranged(body), Sort(SourceLess, sources), Sort(DiagnosticLess, diagnostics));
    var c := Written(db, body, sources, diagnostics, snapshotId, now).value;
    HeldIsStored(c, Arranged(body), now);
    HeldIsResolved(c, Arranged(body));
    SortedRecorded(Candidate(c), sources, Sort(DiagnosticLess, diagnostics));
  }

  lemma SortedRecorded(s: Snapshot, sources: seq<SourceState>, diagnostics: seq<Diagnostic>)
    requires Recorded(s, Sort(SourceLess, sources), diagnostics)
    ensures Recorded(s, sources, diagnostics)
  {
    var sorted := Sort(SourceLess, sources);
    assert (set x | x in sorted :: x.sourceId) == (set x | x in sources :: x.sourceId);
  }

  /** A call of publication: nothing happens when the snapshot is current already; otherwise it
      is published exactly when its id is new and no immutable id would change content. Any
      refusal leaves the committed state as it was and has its stated cause; a success commits
      exactly what was written. */
  ghost predicate PublicationOutcome(
    before: Database, after: Database, body: Body, sources: seq<SourceState>, diagnostics: seq<Diagnostic>,
    snapshotId: string, now: string, r: Result<Report, StoreError>)
  {
    && (r == Ok(Unchanged) <==> before.current == Some(snapshotId))
    && (r == Err(Constraint) <==> before.current != Some(snapshotId) && snapshotId in before.snapshots)
    && (r == Ok(Published) <==>
          before.current != Some(snapshotId) && snapshotId !in before.snapshots && ContentAgrees(before, body))
    && (r.Err? && r.error != Constraint ==> NamesChange(before, body, r.error))
    && (r != Ok(Published) ==> after == before)
    && (r == Ok(Published) ==>
          && CurrentIs(after, snapshotId, body, sources, diagnostics)
          && var written := Written(before, body, sources, diagnostics, snapshotId, now);
             written.Ok? && Ok(after) == Tables.Publish(written.value.working, snapshotId, now))
    && (CommittedValid(before) ==>
          && CommittedValid(after) && Extends(before, after)
          && (r == Ok(Published) ==> after.snapshots.Keys == before.snapshots.Keys + {snapshotId}))
  }

  lemma KeptOutcome(
    db: Database, body: Body, sources: seq<SourceState>, diagnostics: seq<Diagnostic>,
    snapshotId: string, now: string, r: Result<Report, StoreError>)
    requires db.current == Some(snapshotId) || snapshotId in db.snapshots
    requires r == if db.current == Some(snapshotId) then Ok(Unchanged) else Err(Constraint)
    ensures PublicationOutcome(db, db, body, sources, diagnostics, snapshotId, now, r)
  {
  }

  lemma RefusedOutcome(
    db: Database, body: Body, sources: seq<SourceState>, diagnostics: seq<Diagnostic>,
    snapshotId: string, now: string, error: StoreError)
    requires ClosedBody(body) && db.current != Some(snapshotId) && snapshotId !in db.snapshots
    requires Written(db, body, sources, diagnostics, snapshotId, now) == Err(error)
    ensures PublicationOutcome(db, db, body, sources, diagnostics, snapshotId, now, Err(error))
  {
    WrittenExactly(db, body, sources, diagnostics, snapshotId, now);
  }

  lemma PublishedOutcome(
    db: Database, body: Body, sources: seq<SourceState>, diagnostics: seq<Diagnostic>,
    snapshotId: string, now: string)
    requires ClosedBody(body) && db.current != Some(snapshotId) && snapshotId !in db.snapshots
    requires Written(db, body, sources, diagnostics, snapshotId, now).Ok?
    ensures var working := Written(db, body, sources, diagnostics, snapshotId, now).value.working;
            && Resolved(working, snapshotId)
            && PublicationOutcome(
                 db, Tables.Publish(working, snapshotId, now).value, body, sources, diagnostics,
                 snapshotId, now, Ok(Published))
  {
    WrittenExactly(db, body, sources, diagnostics, snapshotId, now);
    WrittenBecomesCurrent(db, body, sources, diagnostics, snapshotId, now);
    if CommittedValid(db) {
      WrittenKeeps(db, body, sources, diagnostics, snapshotId, now);
    }
  }

  /** Publication keeps the store's invariant and every row committed before. */
  lemma WrittenKeeps(
    db: Database, body: Body, sources: seq<SourceState>, diagnostics: seq<Diagnostic>,
    snapshotId: string, now: string)
    requires CommittedValid(db) && snapshotId !in db.snapshots
    requires Written(db, body, sources, diagnostics, snapshotId, now).Ok?
    requires Resolved(Written(db, body, sources, diagnostics, snapshotId, now).value.working, snapshotId)
    ensures var working := Written(db, body, sources, diagnostics, snapshotId, now).value.working;
            var after := Tables.Publish(working, snapshotId, now).value;
            && CommittedValid(after) && Extends(db, after)
            && after.snapshots.Keys == db.snapshots.Keys + {snapshotId}
  {
    var start, written := Opened(db, snapshotId, now), Written(db, body, sources, diagnostics, snapshotId, now).value;
    BeginKeeps(db, snapshotId, now);
    FilledKeeps(db, start, Arranged(body), Sort(SourceLess, sources), Sort(DiagnosticLess, diagnostics));
    PublishKeeps(db, written, now);
    PublishExtends(db, written, now);
  }

  /** Publishes closed evidence under the name of its content. */
  method PublishEvidence(
    store: EvidenceStore, evidence: PreparedEvidence, sources: seq<SourceState>,
    name: SnapshotMaterial -> string, now: string)
    returns (r: Result<Report, StoreError>)
    requires store.Consistent() && store.writer == null
    requires ClosedBody(evidence.Graph())
    modifies store
    ensures store.Consistent() && store.writer == null
    ensures PublicationOutcome(
              old(store.committed), store.committed, evidence.Graph(), sources, evidence.diagnostics,
              name(MaterialOf(evidence.Graph(), sources, evidence.diagnostics)), now, r)
  {
    var snapshotId := name(
      MaterialOf(Body(evidence.records, evidence.edges, evidence.conflicts), sources, evidence.diagnostics));
    ghost var before, graph, diagnostics := store.committed, evidence.Graph(), evidence.diagnostics;
    if store.committed.current == Some(snapshotId) {
      KeptOutcome(before, graph, sources, diagnostics, snapshotId, now, Ok(Unchanged));
      return Ok(Unchanged);
    }
    var body := Body(evidence.records, evidence.edges, Sort(ConflictLess, evidence.conflicts));
    var begun := store.BeginCandidate(snapshotId, now);
    if begun.Err? {
      KeptOutcome(before, graph, sources, diagnostics, snapshotId, now, Err(begun.error));
      return Err(begun.error);
    }
    assert body == Arranged(graph);
    r := WriteAndPublish(begun.value, body, graph, sources, evidence.diagnostics, now);
  }

  /** Writes everything into the fresh candidate; the first refusal abandons it. */
  method WriteAndPublish(
    candidate: CandidateSnapshot, body: Body, ghost graph: Body, sources: seq<SourceState>,
    diagnostics: seq<Diagnostic>, now: string)
    returns (r: Result<Report, StoreError>)
    requires candidate.IsOpen() && ClosedBody(graph) && body == Arranged(graph)
    requires candidate.store.committed.current != Some(candidate.snapshotId)
    requires candidate.snapshotId !in candidate.store.committed.snapshots
    requires candidate.Open() == Opened(candidate.store.committed, candidate.snapshotId, now)
    modifies candidate.store, candidate`working
    ensures candidate.store.Consistent() && candidate.store.writer == null
    ensures PublicationOutcome(
              old(candidate.store.committed), candidate.store.committed, graph, sources, diagnostics,
              candidate.snapshotId, now, r)
  {
    ghost var before := candidate.store.committed;
    var filled := Fill(candidate, body, Sort(SourceLess, sources), Sort(DiagnosticLess, diagnostics));
    if filled.Err? {
      RefusedOutcome(before, graph, sources, diagnostics, candidate.snapshotId, now, filled.error);
      candidate.Abandon();
      return Err(filled.error);
    }
    PublishedOutcome(before, graph, sources, diagnostics, candidate.snapshotId, now);
    var published := candidate.Publish(now);
    r := Ok(Published);
  }

  lemma ArrangedBody(body: Body)
    requires ClosedBody(body)
    ensures ClosedBody(Arranged(body)) && EvidenceBody(Arranged(body)) == EvidenceBody(body)
  {
    assert Elements(Arranged(body).conflicts) == Elements(body.conflicts);
  }

  // ----- a refused synchronisation

  function Story(kind: NodeKind): Node {
    Node("n", kind, Current, None, None, Origin(Synthetic, "example", None, None))
  }

  /** A record id that was published with one content and is offered with another: the second
      synchronisation is refused, whatever its snapshot id and reports. */
  lemma ChangedRecordRefused(
    sources: seq<SourceState>, diagnostics: seq<Diagnostic>, snapshotId: string, now: string)
    requires snapshotId != "s"
    ensures var db := Runs.Run(INITIAL, [Begin("s", now), PutRecord(Story(WorkItem)), Commit(now)]).committed;
            var body := Body(map["n" := Story(Decision)], map[], []);
            && ClosedBody(body) && snapshotId !in db.snapshots && db.current == Some("s")
            && !ContentAgrees(db, body)
            && Written(db, body, sources, diagnostics, snapshotId, now) == Err(ContentMismatch("records", "n"))
  {
    var body := Body(map["n" := Story(Decision)], map[], []);
    var db := Runs.Run(INITIAL, [Begin("s", now), PutRecord(Story(WorkItem)), Commit(now)]).committed;
    StoryPublished(now);
    assert RecordChanges(db, body, "n");
    WrittenExactly(db, body, sources, diagnostics, snapshotId, now);
  }

  lemma StoryPublished(now: string)
    ensures var db := Runs.Run(INITIAL, [Begin("s", now), PutRecord(Story(WorkItem)), Commit(now)]).committed;
            && "n" in db.records && db.records["n"].content == Story(WorkItem)
            && db.snapshots.Keys == {"s"} && db.current == Some("s")
  {
    var put, commit := PutRecord(Story(WorkItem)), Commit(now);
    var begun := Apply(INITIAL, Begin("s", now));
    var edited := Apply(begun, put);
    RunOne(INITIAL, Begin("s", now), [put, commit]);
    RunOne(begun, put, [commit]);
    RunOne(edited, commit, []);
    assert [put] + [commit] == [put, commit] && [commit] + [] == [commit];
    assert [Begin("s", now)] + [put, commit] == [Begin("s", now), put, commit];
  }

  lemma RunOne(s: State, op: Operation, later: seq<Operation>)
    requires Coherent(s)
    ensures Runs.Run(s, [op] + later) == Runs.Run(Apply(s, op), later)
  {
    assert ([op] + later)[1..] == later;
  }
}
