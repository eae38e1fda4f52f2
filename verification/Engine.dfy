/** Assembling local and forge evidence: every reference is resolved before publication. */
module Engine {
  import opened Sequences
  import opened Ordering
  import opened Model
  import opened Graph
  import opened Tables
  import opened Targets
  import opened References

  /** Normalised output of document ingestion. */
  datatype Ingested = Ingested(
    records: seq<Node>, edges: seq<Edge>, conflicts: seq<Conflict>, diagnostics: seq<Diagnostic>)

  /** The graph part of prepared evidence. */
  datatype Body = Body(records: map<string, Node>, edges: map<string, Edge>, conflicts: seq<Conflict>)

  predicate EdgeResolves(records: set<string>, edge: Edge) {
    edge.sourceId in records && edge.targetId in records
  }

  predicate ConflictResolves(records: set<string>, conflict: Conflict) {
    conflict.leftNodeId in records && conflict.rightNodeId in records
  }

  function ResolvedEdges(records: set<string>, edges: seq<Edge>): (r: seq<Edge>)
    ensures forall e :: e in r <==> e in edges && EdgeResolves(records, e)
  {
    Filter((e: Edge) => EdgeResolves(records, e), edges)
  }

  function ResolvedConflicts(records: set<string>, conflicts: seq<Conflict>): (r: seq<Conflict>)
    ensures forall c :: c in r <==> c in conflicts && ConflictResolves(records, c)
  {
    Filter((c: Conflict) => ConflictResolves(records, c), conflicts)
  }

  // ----- what is dropped is reported

  function EdgeReport(edge: Edge): Diagnostic {
    Diagnostic(
      edge.origin.locator, "unresolved_reference",
      "explicit relationship target is absent from local sources")
  }

  function ConflictReport(conflict: Conflict): Diagnostic {
    Diagnostic(
      conflict.ruleId, "unresolved_conflict",
      "explicit conflict target is absent from local sources")
  }

  /** One diagnostic for each edge that does not resolve, in order. */
  function EdgeReports(records: set<string>, edges: seq<Edge>): seq<Diagnostic> {
    Map(EdgeReport, Filter((e: Edge) => !EdgeResolves(records, e), edges))
  }

  function ConflictReports(records: set<string>, conflicts: seq<Conflict>): seq<Diagnostic> {
    Map(ConflictReport, Filter((c: Conflict) => !ConflictResolves(records, c), conflicts))
  }

  lemma EdgeReportsSnoc(records: set<string>, edges: seq<Edge>, e: Edge)
    ensures EdgeReports(records, edges + [e])
            == EdgeReports(records, edges) + if EdgeResolves(records, e) then [] else [EdgeReport(e)]
  {
    FilterSnoc((x: Edge) => !EdgeResolves(records, x), edges, e);
    var kept := Filter((x: Edge) => !EdgeResolves(records, x), edges);
    if EdgeResolves(records, e) {
      assert kept + [] == kept;
    } else {
      assert Map(EdgeReport, kept + [e]) == Map(EdgeReport, kept) + [EdgeReport(e)];
    }
  }

  lemma ConflictReportsSnoc(records: set<string>, conflicts: seq<Conflict>, c: Conflict)
    ensures ConflictReports(records, conflicts + [c])
            == ConflictReports(records, conflicts) + if ConflictResolves(records, c) then [] else [ConflictReport(c)]
  {
    FilterSnoc((x: Conflict) => !ConflictResolves(records, x), conflicts, c);
    var kept := Filter((x: Conflict) => !ConflictResolves(records, x), conflicts);
    if ConflictResolves(records, c) {
      assert kept + [] == kept;
    } else {
      assert Map(ConflictReport, kept + [c]) == Map(ConflictReport, kept) + [ConflictReport(c)];
    }
  }

  lemma EdgeReportsStep(before: seq<Diagnostic>, records: set<string>, edges: seq<Edge>, i: nat)
    requires i < |edges|
    ensures before + EdgeReports(records, edges[..i + 1])
            == before + EdgeReports(records, edges[..i])
               + if EdgeResolves(records, edges[i]) then [] else [EdgeReport(edges[i])]
  {
    assert edges[..i + 1] == edges[..i] + [edges[i]];
    EdgeReportsSnoc(records, edges[..i], edges[i]);
  }

  lemma ConflictReportsStep(before: seq<Diagnostic>, records: set<string>, conflicts: seq<Conflict>, i: nat)
    requires i < |conflicts|
    ensures before + ConflictReports(records, conflicts[..i + 1])
            == before + ConflictReports(records, conflicts[..i])
               + if ConflictResolves(records, conflicts[i]) then [] else [ConflictReport(conflicts[i])]
  {
    assert conflicts[..i + 1] == conflicts[..i] + [conflicts[i]];
    ConflictReportsSnoc(records, conflicts[..i], conflicts[i]);
  }

  // ----- what preparation and merging compute

  /** Later nodes replace earlier ones. */
  function PutNodes(m: map<string, Node>, nodes: seq<Node>): map<string, Node> {
    if nodes == [] then m
    else
      var last := nodes[|nodes| - 1];
      PutNodes(m, nodes[..|nodes| - 1])[last.id := last]
  }

  function CommitNodes(commits: seq<Commit>): seq<Node> {
    Map(CommitNode, commits)
  }

  function AllReferenceEdges(commits: seq<Commit>): seq<Edge> {
    if commits == [] then []
    else AllReferenceEdges(commits[..|commits| - 1]) + CommitReferenceEdges(commits[|commits| - 1])
  }

  function Prepared(commits: seq<Commit>, ingested: Ingested): Body {
    var records := PutNodes(PutNodes(map[], ingested.records), CommitNodes(commits));
    Body(
      records,
      PutEdges(map[], ResolvedEdges(records.Keys, ingested.edges + AllReferenceEdges(commits))),
      ResolvedConflicts(records.Keys, ingested.conflicts))
  }

  /** Diagnostics for the edges, then for the conflicts, that preparation drops. */
  function Reported(before: seq<Diagnostic>, commits: seq<Commit>, ingested: Ingested): seq<Diagnostic> {
    var records := PutNodes(PutNodes(map[], ingested.records), CommitNodes(commits)).Keys;
    before + EdgeReports(records, ingested.edges + AllReferenceEdges(commits))
           + ConflictReports(records, ingested.conflicts)
  }

  // ----- nothing vanishes

  /** The last of the edges with the id. */
  ghost predicate LastWithId(edges: seq<Edge>, id: string, e: Edge) {
    exists i :: 0 <= i < |edges| && edges[i] == e && e.id == id && forall j :: i < j < |edges| ==> edges[j].id != id
  }

  lemma {:induction false} PutEdgesLast(edges: seq<Edge>, k: string)
    requires k in PutEdges(map[], edges)
    ensures LastWithId(edges, k, PutEdges(map[], edges)[k])
  {
    if edges != [] {
      var init, last := edges[..|edges| - 1], edges[|edges| - 1];
      assert edges == init + [last];
      if last.id == k {
        assert edges[|edges| - 1] == PutEdges(map[], edges)[k];
      } else {
        PutEdgesLast(init, k);
        LastWithIdSnoc(init, last, k, PutEdges(map[], init)[k]);
      }
    }
  }

  lemma LastWithIdSnoc(edges: seq<Edge>, other: Edge, id: string, e: Edge)
    requires LastWithId(edges, id, e) && other.id != id
    ensures LastWithId(edges + [other], id, e)
  {
    var i :| 0 <= i < |edges| && edges[i] == e && e.id == id && forall j :: i < j < |edges| ==> edges[j].id != id;
    assert (edges + [other])[i] == e;
  }

  lemma {:induction false} FilterPartition<T(!new)>(p: T -> bool, q: T -> bool, s: seq<T>)
    requires forall x :: q(x) == !p(x)
    ensures |Filter(p, s)| + |Filter(q, s)| == |s|
  {
    if s != [] {
      FilterPartition(p, q, s[1..]);
    }
  }

  /** What becomes of every proposed edge and conflict: one that resolves is kept, an edge
      giving way only to a later one with its id; one that does not is reported, and there is one
      report for each. */
  lemma NothingVanishes(before: seq<Diagnostic>, commits: seq<Commit>, ingested: Ingested)
    ensures var body := Prepared(commits, ingested);
            var records := body.records.Keys;
            var proposed := ingested.edges + AllReferenceEdges(commits);
            var reports := Reported(before, commits, ingested);
            && (forall e :: e in proposed && EdgeResolves(records, e) ==> e.id in body.edges)
            && (forall k :: k in body.edges ==> LastWithId(ResolvedEdges(records, proposed), k, body.edges[k]))
            && (forall e :: e in proposed && !EdgeResolves(records, e) ==>
                  Diagnostic(
                    e.origin.locator, "unresolved_reference",
                    "explicit relationship target is absent from local sources") in reports)
            && (forall c :: c in ingested.conflicts ==>
                  if ConflictResolves(records, c) then c in body.conflicts
                  else
                    Diagnostic(
                      c.ruleId, "unresolved_conflict",
                      "explicit conflict target is absent from local sources") in reports)
            && |reports| + |ResolvedEdges(records, proposed)| + |body.conflicts|
               == |before| + |proposed| + |ingested.conflicts|
  {
    var body := Prepared(commits, ingested);
    var records := body.records.Keys;
    var proposed := ingested.edges + AllReferenceEdges(commits);
    var resolved := ResolvedEdges(records, proposed);
    PutEdgesMembers(resolved);
    forall k | k in body.edges
      ensures LastWithId(resolved, k, body.edges[k])
    {
      PutEdgesLast(resolved, k);
    }
    DroppedEdgesReported(records, proposed);
    DroppedConflictsReported(records, ingested.conflicts);
  }

  lemma DroppedEdgesReported(records: set<string>, edges: seq<Edge>)
    ensures forall e :: e in edges && !EdgeResolves(records, e) ==> EdgeReport(e) in EdgeReports(records, edges)
    ensures |ResolvedEdges(records, edges)| + |EdgeReports(records, edges)| == |edges|
  {
    var p, q := (e: Edge) => EdgeResolves(records, e), (e: Edge) => !EdgeResolves(records, e);
    FilterPartition(p, q, edges);
    FilterEqual(p, (e: Edge) => EdgeResolves(records, e), edges);
    FilterEqual(q, (e: Edge) => !EdgeResolves(records, e), edges);
    var dropped := Filter((e: Edge) => !EdgeResolves(records, e), edges);
    forall e | e in edges && !EdgeResolves(records, e)
      ensures EdgeReport(e) in EdgeReports(records, edges)
    {
      var i :| 0 <= i < |dropped| && dropped[i] == e;
      assert EdgeReports(records, edges)[i] == EdgeReport(e);
    }
  }

  lemma DroppedConflictsReported(records: set<string>, conflicts: seq<Conflict>)
    ensures forall c :: c in conflicts && !ConflictResolves(records, c) ==>
              ConflictReport(c) in ConflictReports(records, conflicts)
    ensures |ResolvedConflicts(records, conflicts)| + |ConflictReports(records, conflicts)| == |conflicts|
  {
    var p, q := (c: Conflict) => ConflictResolves(records, c), (c: Conflict) => !ConflictResolves(records, c);
    FilterPartition(p, q, conflicts);
    FilterEqual(p, (c: Conflict) => ConflictResolves(records, c), conflicts);
    FilterEqual(q, (c: Conflict) => !ConflictResolves(records, c), conflicts);
    var dropped := Filter((c: Conflict) => !ConflictResolves(records, c), conflicts);
    forall c | c in conflicts && !ConflictResolves(records, c)
      ensures ConflictReport(c) in ConflictReports(records, conflicts)
    {
      var i :| 0 <= i < |dropped| && dropped[i] == c;
      assert ConflictReports(records, conflicts)[i] == ConflictReport(c);
    }
  }

  // ----- what commits contribute

  /** What is found under an id: one of the nodes with it, or else what was there. */
  lemma {:induction false} PutNodesAt(m: map<string, Node>, nodes: seq<Node>, id: string)
    ensures id in PutNodes(m, nodes) <==> id in m || exists n :: n in nodes && n.id == id
    ensures (exists n :: n in nodes && n.id == id) ==>
              PutNodes(m, nodes)[id] in nodes && PutNodes(m, nodes)[id].id == id
    ensures id in m && (forall n :: n in nodes ==> n.id != id) ==> PutNodes(m, nodes)[id] == m[id]
  {
    if nodes != [] {
      var init, last := nodes[..|nodes| - 1], nodes[|nodes| - 1];
      PutNodesAt(m, init, id);
      assert forall n :: n in nodes <==> n in init || n == last by {
        assert nodes == init + [last];
      }
    }
  }

  lemma CommitRecords(commits: seq<Commit>)
    ensures forall n :: n in CommitNodes(commits) ==> exists c :: c in commits && n == OwnRecord(c)
    ensures forall c :: c in commits ==> OwnRecord(c) in CommitNodes(commits)
  {
    var nodes := CommitNodes(commits);
    forall n | n in nodes
      ensures exists c :: c in commits && n == OwnRecord(c)
    {
      var i :| 0 <= i < |nodes| && nodes[i] == n;
      assert n == OwnRecord(commits[i]);
    }
    forall c | c in commits
      ensures OwnRecord(c) in nodes
    {
      var i :| 0 <= i < |commits| && commits[i] == c;
      assert nodes[i] == OwnRecord(c);
    }
  }

  ghost predicate IsCommit(commits: seq<Commit>, id: string) {
    exists c :: c in commits && c.id == id
  }

  lemma CommitIds(commits: seq<Commit>, id: string)
    ensures IsCommit(commits, id) <==> exists n :: n in CommitNodes(commits) && n.id == id
  {
    CommitRecords(commits);
    if IsCommit(commits, id) {
      var c :| c in commits && c.id == id;
      assert OwnRecord(c) in CommitNodes(commits);
    }
  }

  /** Prepared records are the ingested ones and one for each commit, which wins over a document
      that claims its id. */
  lemma PreparedRecords(commits: seq<Commit>, ingested: Ingested, id: string)
    ensures var records := Prepared(commits, ingested).records;
            && (id in records <==> IsCommit(commits, id) || exists n :: n in ingested.records && n.id == id)
            && (IsCommit(commits, id) ==> exists c :: c in commits && c.id == id && records[id] == OwnRecord(c))
            && (id in records && !IsCommit(commits, id) ==> records[id] in ingested.records && records[id].id == id)
  {
    var documents := PutNodes(map[], ingested.records);
    PutNodesAt(map[], ingested.records, id);
    PutNodesAt(documents, CommitNodes(commits), id);
    CommitIds(commits, id);
    if IsCommit(commits, id) {
      CommitRecords(commits);
    }
  }

  /** The edges that commits propose are the references of their messages, and no other. */
  lemma {:induction false} ProposedReferences(commits: seq<Commit>)
    ensures forall e :: e in AllReferenceEdges(commits) ==>
              exists c, ref :: c in commits && ref in c.references && Refers(ref, c, e)
    ensures forall c, ref :: c in commits && ref in c.references && ref.kind != ForgeUrl ==>
              exists e :: e in AllReferenceEdges(commits) && Refers(ref, c, e)
  {
    if commits != [] {
      var init, last := commits[..|commits| - 1], commits[|commits| - 1];
      ProposedReferences(init);
      EdgesOfReferences(last, last.references);
      assert forall c :: c in commits <==> c in init || c == last by {
        assert commits == init + [last];
      }
    }
  }

  /** Earlier edges win. */
  function PutAbsentEdges(m: map<string, Edge>, edges: seq<Edge>): map<string, Edge> {
    if edges == [] then m
    else
      var last := edges[|edges| - 1];
      InsertAbsent(PutAbsentEdges(m, edges[..|edges| - 1]), last.id, last)
  }

  /** Forge records and edges fill gaps; edges that do not resolve are dropped. */
  function Merged(body: Body, records: seq<Node>, edges: seq<Edge>): Body {
    var rs := PutAbsent(body.records, records);
    body.(records := rs, edges := PutAbsentEdges(body.edges, ResolvedEdges(rs.Keys, edges)))
  }

  /** Keys are ids and every endpoint of an edge or conflict is a record. */
  ghost predicate ClosedBody(body: Body) {
    && (forall id :: id in body.records ==> body.records[id].id == id)
    && (forall k :: k in body.edges ==> body.edges[k].id == k && EdgeResolves(body.records.Keys, body.edges[k]))
    && (forall c :: c in body.conflicts ==> ConflictResolves(body.records.Keys, c))
  }

  // ----- closedness

  lemma {:induction false} PutNodesKeyed(m: map<string, Node>, nodes: seq<Node>)
    requires forall id :: id in m ==> m[id].id == id
    ensures forall id :: id in PutNodes(m, nodes) ==> PutNodes(m, nodes)[id].id == id
  {
    if nodes != [] {
      PutNodesKeyed(m, nodes[..|nodes| - 1]);
    }
  }

  lemma {:induction false} PutAbsentKeyed(m: map<string, Node>, nodes: seq<Node>)
    requires forall id :: id in m ==> m[id].id == id
    ensures forall id :: id in PutAbsent(m, nodes) ==> PutAbsent(m, nodes)[id].id == id
    ensures forall id :: id in m ==> id in PutAbsent(m, nodes) && PutAbsent(m, nodes)[id] == m[id]
  {
    if nodes != [] {
      PutAbsentKeyed(m, nodes[..|nodes| - 1]);
    }
  }

  lemma {:induction false} PutAbsentEdgesMembers(m: map<string, Edge>, edges: seq<Edge>)
    requires forall k :: k in m ==> m[k].id == k
    ensures var r := PutAbsentEdges(m, edges);
            && (forall k :: k in r ==> r[k].id == k && ((k in m && r[k] == m[k]) || (k !in m && r[k] in edges)))
            && (forall k :: k in m ==> k in r)
            && (forall e :: e in edges ==> e.id in r)
  {
    if edges != [] {
      var init, last := edges[..|edges| - 1], edges[|edges| - 1];
      PutAbsentEdgesMembers(m, init);
      assert edges == init + [last];
    }
  }

  /** Preparation resolves every reference, whatever was ingested. */
  lemma PreparedIsClosed(commits: seq<Commit>, ingested: Ingested)
    ensures ClosedBody(Prepared(commits, ingested))
  {
    PutNodesKeyed(map[], ingested.records);
    PutNodesKeyed(PutNodes(map[], ingested.records), CommitNodes(commits));
    var records := PutNodes(PutNodes(map[], ingested.records), CommitNodes(commits));
    PutEdgesMembers(ResolvedEdges(records.Keys, ingested.edges + AllReferenceEdges(commits)));
  }

  /** Merging keeps every reference resolved, whatever the forge supplied. */
  lemma MergedIsClosed(body: Body, records: seq<Node>, edges: seq<Edge>)
    requires ClosedBody(body)
    ensures ClosedBody(Merged(body, records, edges))
  {
    var rs := PutAbsent(body.records, records);
    PutAbsentKeyed(body.records, records);
    PutAbsentEdgesMembers(body.edges, ResolvedEdges(rs.Keys, edges));
  }

  datatype Contribution = Contribution(records: seq<Node>, edges: seq<Edge>)

  function MergedAll(body: Body, contributions: seq<Contribution>): Body
    decreases |contributions|
  {
    if contributions == [] then body
    else
      MergedAll(
        Merged(body, contributions[0].records, contributions[0].edges), contributions[1..])
  }

  /** Preparation followed by any number of merges yields closed evidence. */
  lemma {:induction false} EngineEvidenceIsClosed(body: Body, contributions: seq<Contribution>)
    requires ClosedBody(body)
    ensures ClosedBody(MergedAll(body, contributions))
    decreases |contributions|
  {
    if contributions != [] {
      MergedIsClosed(body, contributions[0].records, contributions[0].edges);
      EngineEvidenceIsClosed(
        Merged(body, contributions[0].records, contributions[0].edges), contributions[1..]);
    }
  }

  // ----- extracting and re-merging the forge contribution

  predicate FromForge(origin: Origin) {
    origin.sourceKind == GitHub
  }

  /** No record or edge of forge origin. */
  ghost predicate Local(body: Body) {
    && (forall id :: id in body.records ==> body.records[id].origin.sourceKind != GitHub)
    && (forall k :: k in body.edges ==> body.edges[k].origin.sourceKind != GitHub)
  }

  ghost predicate Forge(c: Contribution) {
    && (forall n :: n in c.records ==> n.origin.sourceKind == GitHub)
    && (forall e :: e in c.edges ==> e.origin.sourceKind == GitHub)
  }

  lemma {:induction false} PutNodesFrom(m: map<string, Node>, nodes: seq<Node>)
    ensures forall id :: id in PutNodes(m, nodes) ==>
              PutNodes(m, nodes)[id] in nodes || (id in m && PutNodes(m, nodes)[id] == m[id])
  {
    if nodes != [] {
      PutNodesFrom(m, nodes[..|nodes| - 1]);
      assert nodes == nodes[..|nodes| - 1] + [nodes[|nodes| - 1]];
    }
  }

  lemma {:induction false} ReferencesAreGit(commits: seq<Commit>)
    ensures forall e :: e in AllReferenceEdges(commits) ==> e.origin.sourceKind == Git
  {
    if commits != [] {
      ReferencesAreGit(commits[..|commits| - 1]);
      forall e | e in CommitReferenceEdges(commits[|commits| - 1])
        ensures e.origin.sourceKind == Git
      {
        ReferenceIsGit(commits[|commits| - 1], commits[|commits| - 1].references, e);
      }
    }
  }

  lemma {:induction false} ReferenceIsGit(commit: Commit, references: seq<Reference>, e: Edge)
    requires e in ReferenceEdges(commit, references)
    ensures e.origin.sourceKind == Git
  {
    if references != [] && e in ReferenceEdges(commit, references[1..]) {
      ReferenceIsGit(commit, references[1..], e);
    }
  }

  lemma CommitsAreGit(commits: seq<Commit>, n: Node)
    requires n in CommitNodes(commits)
    ensures n.origin.sourceKind == Git
  {
    var i :| 0 <= i < |CommitNodes(commits)| && CommitNodes(commits)[i] == n;
    assert n == CommitNode(commits[i]);
  }

  /** Whatever the history, what is prepared from documents that do not claim to come from the
      forge is local: no commit and no reference of one is ever taken for a forge row. */
  lemma PreparedIsLocal(commits: seq<Commit>, ingested: Ingested)
    requires forall n :: n in ingested.records ==> n.origin.sourceKind != GitHub
    requires forall e :: e in ingested.edges ==> e.origin.sourceKind != GitHub
    ensures Local(Prepared(commits, ingested))
  {
    var documents := PutNodes(map[], ingested.records);
    var records := PutNodes(documents, CommitNodes(commits));
    PutNodesFrom(map[], ingested.records);
    PutNodesFrom(documents, CommitNodes(commits));
    forall id | id in records
      ensures records[id].origin.sourceKind != GitHub
    {
      if records[id] in CommitNodes(commits) {
        CommitsAreGit(commits, records[id]);
      }
    }
    ReferencesAreGit(commits);
    PutEdgesMembers(ResolvedEdges(records.Keys, ingested.edges + AllReferenceEdges(commits)));
  }

  /** The rows of forge origin, in key order. */
  function Extracted(body: Body): Contribution {
    Contribution(
      Filter((n: Node) => FromForge(n.origin), Values(body.records)),
      Filter((e: Edge) => FromForge(e.origin), Values(body.edges)))
  }

  lemma {:induction false} PutAbsentMeaning(m: map<string, Node>, nodes: seq<Node>)
    ensures var r := PutAbsent(m, nodes);
            && (forall id :: id in r <==> id in m || exists n :: n in nodes && n.id == id)
            && (forall id :: id in r ==> if id in m then r[id] == m[id] else r[id] in nodes && r[id].id == id)
  {
    if nodes != [] {
      var init, last := nodes[..|nodes| - 1], nodes[|nodes| - 1];
      PutAbsentMeaning(m, init);
      assert nodes == init + [last];
    }
  }

  lemma {:induction false} ExtractedRecords(body: Body, c: Contribution)
    requires ClosedBody(body) && Local(body) && Forge(c)
    ensures var m := Merged(body, c.records, c.edges);
            forall n :: n in Extracted(m).records <==>
                        n.id in m.records && n.id !in body.records && m.records[n.id] == n
  {
    var m := Merged(body, c.records, c.edges);
    assert forall id :: id in m.records ==>
             m.records[id].id == id && (m.records[id].origin.sourceKind == GitHub <==> id !in body.records)
    by {
      PutAbsentMeaning(body.records, c.records);
      PutAbsentKeyed(body.records, c.records);
    }
    NodeValuesMembers(m.records);
  }

  lemma MergedEdgesMeaning(body: Body, c: Contribution)
    requires ClosedBody(body)
    ensures var m := Merged(body, c.records, c.edges);
            && (forall k :: k in m.edges ==>
                  && m.edges[k].id == k
                  && if k in body.edges then m.edges[k] == body.edges[k] else m.edges[k] in c.edges)
            && (forall k :: k in body.edges ==> k in m.edges)
  {
    var m := Merged(body, c.records, c.edges);
    PutAbsentEdgesMembers(body.edges, ResolvedEdges(m.records.Keys, c.edges));
  }

  lemma ExtractedEdges(body: Body, c: Contribution)
    requires ClosedBody(body) && Local(body) && Forge(c)
    ensures var m := Merged(body, c.records, c.edges);
            forall e :: e in Extracted(m).edges <==> e.id in m.edges && e.id !in body.edges && m.edges[e.id] == e
  {
    var m := Merged(body, c.records, c.edges);
    MergedEdgesMeaning(body, c);
    ValuesMembers(m.edges);
    forall e
      ensures e in Extracted(m).edges <==>
              e.id in m.edges && e.id !in body.edges && m.edges[e.id] == e
    {
      if e in Extracted(m).edges {
        var k :| k in m.edges && m.edges[k] == e;
      }
    }
  }

  /** Reinserting exactly what a map has beyond its base rebuilds it. */
  lemma ReinsertNodes(base: map<string, Node>, m: map<string, Node>, added: seq<Node>)
    requires forall id :: id in base ==> id in m && m[id] == base[id]
    requires forall id :: id in m ==> m[id].id == id
    requires forall n :: n in added <==> n.id in m && n.id !in base && m[n.id] == n
    ensures PutAbsent(base, added) == m
  {
    var again := PutAbsent(base, added);
    PutAbsentMeaning(base, added);
    forall id
      ensures id in again <==> id in m
      ensures id in m ==> again[id] == m[id]
    {
      if id in m && id !in base {
        assert m[id] in added;
      }
    }
  }

  lemma ReinsertEdges(base: map<string, Edge>, m: map<string, Edge>, added: seq<Edge>)
    requires forall k :: k in base ==> k in m && m[k] == base[k]
    requires forall k :: k in m ==> m[k].id == k
    requires forall e :: e in added <==> e.id in m && e.id !in base && m[e.id] == e
    ensures PutAbsentEdges(base, added) == m
  {
    var again := PutAbsentEdges(base, added);
    assert forall k :: k in base ==> base[k].id == k;
    PutAbsentEdgesMembers(base, added);
    forall k
      ensures k in again <==> k in m
      ensures k in m ==> again[k] == m[k]
    {
      if k in m && k !in base {
        assert m[k] in added;
      }
    }
  }

  lemma RemergedRecords(body: Body, c: Contribution)
    requires ClosedBody(body) && Local(body) && Forge(c)
    ensures var m := Merged(body, c.records, c.edges);
            PutAbsent(body.records, Extracted(m).records) == m.records
  {
    var m := Merged(body, c.records, c.edges);
    ExtractedRecords(body, c);
    PutAbsentKeyed(body.records, c.records);
    ReinsertNodes(body.records, m.records, Extracted(m).records);
  }

  lemma RemergedEdges(body: Body, c: Contribution)
    requires ClosedBody(body) && Local(body) && Forge(c)
    ensures var m := Merged(body, c.records, c.edges);
            PutAbsentEdges(body.edges, ResolvedEdges(m.records.Keys, Extracted(m).edges)) == m.edges
  {
    var m := Merged(body, c.records, c.edges);
    var offered := ResolvedEdges(m.records.Keys, Extracted(m).edges);
    MergedIsClosed(body, c.records, c.edges);
    ExtractedEdges(body, c);
    MergedEdgesMeaning(body, c);
    forall e
      ensures e in offered <==> e.id in m.edges && e.id !in body.edges && m.edges[e.id] == e
    {
    }
    ReinsertEdges(body.edges, m.edges, offered);
  }

  /** Merging the extracted forge rows into the same local evidence reproduces the graph. */
  lemma RemergeReproduces(body: Body, c: Contribution)
    requires ClosedBody(body) && Local(body) && Forge(c)
    ensures var m := Merged(body, c.records, c.edges);
            Merged(body, Extracted(m).records, Extracted(m).edges) == m
  {
    RemergedRecords(body, c);
    RemergedEdges(body, c);
  }

  lemma PreparedParts(commits: seq<Commit>, ingested: Ingested, body: Body)
    requires body.records == PutNodes(PutNodes(map[], ingested.records), CommitNodes(commits))
    requires body.edges
             == PutEdges(map[], ResolvedEdges(body.records.Keys, ingested.edges + AllReferenceEdges(commits)))
    requires body.conflicts == [] + ResolvedConflicts(body.records.Keys, ingested.conflicts)
    ensures body == Prepared(commits, ingested)
  {
  }

  /** The ingested edges, then the references of each commit in turn. */
  method ProposedEdges(edges: seq<Edge>, commits: seq<Commit>) returns (proposed: seq<Edge>)
    ensures proposed == edges + AllReferenceEdges(commits)
  {
    proposed := edges;
    for i := 0 to |commits|
      invariant proposed == edges + AllReferenceEdges(commits[..i])
    {
      assert commits[..i + 1][..i] == commits[..i];
      proposed := proposed + CommitReferenceEdges(commits[i]);
    }
    assert commits[..|commits|] == commits;
  }

  // ----- the builders as they run

  class PreparedEvidence {
    var records: map<string, Node>
    var edges: map<string, Edge>
    var conflicts: seq<Conflict>
    var diagnostics: seq<Diagnostic>

    ghost function Graph(): Body
      reads this
    {
      Body(records, edges, conflicts)
    }

    /** Index the ingested records, add the commits, then keep what resolves and report the rest. */
    constructor (commits: seq<Commit>, ingested: Ingested, diagnostics: seq<Diagnostic>)
      ensures Graph() == Prepared(commits, ingested)
      ensures ClosedBody(Graph())
      ensures this.diagnostics == Reported(diagnostics + ingested.diagnostics, commits, ingested)
    {
      this.records := map[];
      this.edges := map[];
      this.conflicts := [];
      this.diagnostics := diagnostics + ingested.diagnostics;
      new;
      AddRecords(ingested.records);
      AddRecords(CommitNodes(commits));
      var proposed := ProposedEdges(ingested.edges, commits);
      AddEdges(proposed);
      AddConflicts(ingested.conflicts);
      PreparedParts(commits, ingested, Graph());
      PreparedIsClosed(commits, ingested);
    }

    method AddRecords(nodes: seq<Node>)
      modifies this
      ensures Graph() == old(Graph()).(records := PutNodes(old(records), nodes))
      ensures diagnostics == old(diagnostics)
    {
      for i := 0 to |nodes|
        invariant Graph() == old(Graph()).(records := PutNodes(old(records), nodes[..i]))
        invariant diagnostics == old(diagnostics)
      {
        assert nodes[..i + 1][..i] == nodes[..i];
        records := records[nodes[i].id := nodes[i]];
      }
      assert nodes[..|nodes|] == nodes;
    }

    method AddEdges(proposed: seq<Edge>)
      modifies this
      ensures Graph() == old(Graph()).(edges := PutEdges(old(edges), ResolvedEdges(old(records).Keys, proposed)))
      ensures diagnostics == old(diagnostics) + EdgeReports(old(records).Keys, proposed)
    {
      for i := 0 to |proposed|
        invariant Graph() == old(Graph()).(
                               edges := PutEdges(old(edges), ResolvedEdges(old(records).Keys, proposed[..i])))
        invariant diagnostics == old(diagnostics) + EdgeReports(old(records).Keys, proposed[..i])
      {
        EdgeReportsStep(old(diagnostics), records.Keys, proposed, i);
        ResolvedEdgesStep(old(edges), records.Keys, proposed, i);
        if EdgeResolves(records.Keys, proposed[i]) {
          edges := edges[proposed[i].id := proposed[i]];
        } else {
          diagnostics := diagnostics + [EdgeReport(proposed[i])];
        }
      }
      assert proposed[..|proposed|] == proposed;
    }

    method AddConflicts(proposed: seq<Conflict>)
      modifies this
      ensures Graph() == old(Graph()).(
                           conflicts := old(conflicts) + ResolvedConflicts(old(records).Keys, proposed))
      ensures diagnostics == old(diagnostics) + ConflictReports(old(records).Keys, proposed)
    {
      for i := 0 to |proposed|
        invariant Graph() == old(Graph()).(
                               conflicts := old(conflicts) + ResolvedConflicts(old(records).Keys, proposed[..i]))
        invariant diagnostics == old(diagnostics) + ConflictReports(old(records).Keys, proposed[..i])
      {
        ConflictReportsStep(old(diagnostics), records.Keys, proposed, i);
        ResolvedConflictsStep(old(conflicts), records.Keys, proposed, i);
        if ConflictResolves(records.Keys, proposed[i]) {
          conflicts := conflicts + [proposed[i]];
        } else {
          diagnostics := diagnostics + [ConflictReport(proposed[i])];
        }
      }
      assert proposed[..|proposed|] == proposed;
    }

    /** Adds a forge contribution in place. */
    method MergeGitHub(newRecords: seq<Node>, newEdges: seq<Edge>)
      modifies this
      ensures Graph() == Merged(old(Graph()), newRecords, newEdges)
      ensures diagnostics == old(diagnostics)
      ensures old(ClosedBody(Graph())) ==> ClosedBody(Graph())
    {
      ghost var before := Graph();
      for i := 0 to |newRecords|
        invariant Graph() == before.(records := PutAbsent(before.records, newRecords[..i]))
        invariant diagnostics == old(diagnostics)
      {
        assert newRecords[..i + 1][..i] == newRecords[..i];
        records := InsertAbsent(records, newRecords[i].id, newRecords[i]);
      }
      assert newRecords[..|newRecords|] == newRecords;
      for i := 0 to |newEdges|
        invariant records == PutAbsent(before.records, newRecords)
        invariant Graph() == before.(
                               records := records,
                               edges := PutAbsentEdges(before.edges, ResolvedEdges(records.Keys, newEdges[..i])))
        invariant diagnostics == old(diagnostics)
      {
        AbsentEdgesStep(before.edges, records.Keys, newEdges, i);
        if EdgeResolves(records.Keys, newEdges[i]) {
          edges := InsertAbsent(edges, newEdges[i].id, newEdges[i]);
        }
      }
      assert newEdges[..|newEdges|] == newEdges;
      if ClosedBody(before) {
        MergedIsClosed(before, newRecords, newEdges);
      }
    }
  }

  lemma ResolvedConflictsSnoc(records: set<string>, conflicts: seq<Conflict>, c: Conflict)
    ensures ResolvedConflicts(records, conflicts + [c])
            == ResolvedConflicts(records, conflicts) + if ConflictResolves(records, c) then [c] else []
  {
    FilterSnoc((x: Conflict) => ConflictResolves(records, x), conflicts, c);
  }

  lemma ResolvedEdgesSnoc(records: set<string>, edges: seq<Edge>, e: Edge)
    ensures ResolvedEdges(records, edges + [e])
            == ResolvedEdges(records, edges) + if EdgeResolves(records, e) then [e] else []
  {
    FilterSnoc((x: Edge) => EdgeResolves(records, x), edges, e);
  }

  lemma ResolvedConflictsStep(before: seq<Conflict>, records: set<string>, conflicts: seq<Conflict>, i: nat)
    requires i < |conflicts|
    ensures before + ResolvedConflicts(records, conflicts[..i + 1])
            == before + ResolvedConflicts(records, conflicts[..i])
               + if ConflictResolves(records, conflicts[i]) then [conflicts[i]] else []
  {
    assert conflicts[..i + 1] == conflicts[..i] + [conflicts[i]];
    ResolvedConflictsSnoc(records, conflicts[..i], conflicts[i]);
  }

  lemma ResolvedEdgesStep(m: map<string, Edge>, records: set<string>, edges: seq<Edge>, i: nat)
    requires i < |edges|
    ensures PutEdges(m, ResolvedEdges(records, edges[..i + 1])) ==
            if EdgeResolves(records, edges[i])
            then PutEdges(m, ResolvedEdges(records, edges[..i]))[edges[i].id := edges[i]]
            else PutEdges(m, ResolvedEdges(records, edges[..i]))
  {
    var before := ResolvedEdges(records, edges[..i]);
    assert edges[..i + 1] == edges[..i] + [edges[i]];
    ResolvedEdgesSnoc(records, edges[..i], edges[i]);
    if EdgeResolves(records, edges[i]) {
      PutEdgesSnoc(m, before, edges[i]);
    } else {
      assert before + [] == before;
    }
  }

  lemma AbsentEdgesStep(m: map<string, Edge>, records: set<string>, edges: seq<Edge>, i: nat)
    requires i < |edges|
    ensures PutAbsentEdges(m, ResolvedEdges(records, edges[..i + 1])) ==
            if EdgeResolves(records, edges[i])
            then InsertAbsent(PutAbsentEdges(m, ResolvedEdges(records, edges[..i])), edges[i].id, edges[i])
            else PutAbsentEdges(m, ResolvedEdges(records, edges[..i]))
  {
    var before := ResolvedEdges(records, edges[..i]);
    assert edges[..i + 1] == edges[..i] + [edges[i]];
    ResolvedEdgesSnoc(records, edges[..i], edges[i]);
    if EdgeResolves(records, edges[i]) {
      assert (before + [edges[i]])[..|before|] == before;
    } else {
      assert before + [] == before;
    }
  }
}
