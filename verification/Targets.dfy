/** Resolved targets, the names derived from content, and how a target is attached to the
    evidence of a proof request. */
module Targets {
  import opened Wrappers
  import opened Sequences
  import opened Ordering
  import opened Model
  import opened Evaluator

  datatype ReferenceKind = IssueReference | StoryReference | DecisionReference | ForgeUrl

  datatype Reference = Reference(kind: ReferenceKind, value: string)

  datatype Commit = Commit(id: string, committedAt: Option<string>, references: seq<Reference>)

  datatype Target =
    | CommitTarget(commit: Commit)
    | LinesTarget(path: string, startLine: nat, endLine: nat, revision: string, introducedBy: seq<string>)

  /** A collision-free name for its material. */
  function Digest(material: string): string {
    material
  }

  const NUL: string := "\0"

  function KindName(kind: EdgeKind): string {
    match kind
    case IntroducedBy => "IntroducedBy"
    case ChangedBy => "ChangedBy"
    case IncludedInPr => "IncludedInPr"
    case ResolvesIssue => "ResolvesIssue"
    case Documents => "Documents"
    case Supersedes => "Supersedes"
    case VerifiedBy => "VerifiedBy"
  }

  /** What an edge id is the digest of. */
  function Material(kind: EdgeKind, source: string, target: string, locator: string): string {
    KindName(kind) + NUL + source + NUL + target + NUL + locator
  }

  function EvidenceEdge(kind: EdgeKind, source: string, target: string, origin: Origin): Edge {
    Edge(
      "edge:" + Digest(Material(kind, source, target, origin.locator)),
      kind, source, target, Current, origin)
  }

  function ChangeNode(id: string, observedAt: Option<string>): Node {
    Node(id, Change, Current, None, None, Origin(Git, "commit:" + id, Some(id), observedAt))
  }

  function CommitNode(commit: Commit): Node {
    ChangeNode(commit.id, commit.committedAt)
  }

  function MessageOrigin(commit: Commit): Origin {
    Origin(Git, "commit:" + commit.id + "#message", Some(commit.id), None)
  }

  function ReferenceEdge(commit: Commit, reference: Reference): Option<Edge> {
    match reference.kind
    case IssueReference => Some(EvidenceEdge(ResolvesIssue, commit.id, reference.value, MessageOrigin(commit)))
    case StoryReference => Some(EvidenceEdge(ResolvesIssue, commit.id, reference.value, MessageOrigin(commit)))
    case DecisionReference => Some(EvidenceEdge(Documents, commit.id, reference.value, MessageOrigin(commit)))
    case ForgeUrl => None
  }

  function ReferenceEdges(commit: Commit, references: seq<Reference>): (r: seq<Edge>)
    ensures forall e :: e in r ==> e.sourceId == commit.id
  {
    if references == [] then []
    else
      var edge := ReferenceEdge(commit, references[0]);
      (if edge.Some? then [edge.value] else []) + ReferenceEdges(commit, references[1..])
  }

  function CommitReferenceEdges(commit: Commit): (r: seq<Edge>)
    ensures forall e :: e in r ==> e.sourceId == commit.id
  {
    ReferenceEdges(commit, commit.references)
  }

  // ----- seeds

  function ProofSeedIds(target: Target): (r: seq<string>)
    ensures target.CommitTarget? ==> Elements(r) == {target.commit.id}
    ensures target.LinesTarget? ==> Elements(r) == Elements(target.introducedBy)
    ensures StrictlySorted(StringLess, r)
  {
    match target
    case CommitTarget(commit) => [commit.id]
    case LinesTarget(_, _, _, _, introducedBy) =>
      StringOrder();
      Listed(StringLess, Elements(introducedBy))
  }

  // ----- attachment

  datatype Attachment = Attachment(nodes: map<string, Node>, edges: map<string, Edge>)

  function LinesLocator(target: Target): string
    requires target.LinesTarget?
  {
    target.path + ":" + Decimal(target.startLine) + "-" + Decimal(target.endLine)
  }

  function TargetId(target: Target): string {
    match target
    case CommitTarget(commit) => commit.id
    case LinesTarget(_, _, _, revision, _) => "code:" + Digest(LinesLocator(target) + "@" + revision)
  }

  function LinesOrigin(target: Target): Origin
    requires target.LinesTarget?
  {
    Origin(Git, LinesLocator(target), Some(target.revision), None)
  }

  function IntroducedEdge(target: Target, commitId: string): Edge
    requires target.LinesTarget?
  {
    EvidenceEdge(IntroducedBy, TargetId(target), commitId, LinesOrigin(target))
  }

  function InsertAbsent<V>(m: map<string, V>, key: string, value: V): map<string, V> {
    if key in m then m else m[key := value]
  }

  /** BTreeMap::entry(..).or_insert for each node in turn. */
  function PutAbsent(m: map<string, Node>, nodes: seq<Node>): map<string, Node> {
    if nodes == [] then m
    else
      var last := nodes[|nodes| - 1];
      InsertAbsent(PutAbsent(m, nodes[..|nodes| - 1]), last.id, last)
  }

  /** BTreeMap::insert for each edge in turn. */
  function PutEdges(m: map<string, Edge>, edges: seq<Edge>): map<string, Edge> {
    if edges == [] then m
    else
      var last := edges[|edges| - 1];
      PutEdges(m, edges[..|edges| - 1])[last.id := last]
  }

  /** The commits of a line target, as records and as edges from the target. */
  function IntroducedNodes(commitIds: seq<string>): seq<Node> {
    Map((id: string) => ChangeNode(id, None), commitIds)
  }

  function IntroducedEdges(target: Target): (r: seq<Edge>)
    requires target.LinesTarget?
    ensures forall e :: e in r ==> e.sourceId == TargetId(target) && e.targetId in target.introducedBy
  {
    Map((id: string) => IntroducedEdge(target, id), target.introducedBy)
  }

  /** References whose record is present. */
  function PresentReferences(commit: Commit, present: set<string>): seq<Edge> {
    Present(present, CommitReferenceEdges(commit))
  }

  function Present(present: set<string>, edges: seq<Edge>): (r: seq<Edge>)
    ensures forall e :: e in r <==> e in edges && e.targetId in present
  {
    Filter((e: Edge) => e.targetId in present, edges)
  }

  lemma PresentSnoc(present: set<string>, edges: seq<Edge>, edge: Edge)
    ensures Present(present, edges + [edge]) ==
            Present(present, edges) + if edge.targetId in present then [edge] else []
  {
    FilterSnoc((e: Edge) => e.targetId in present, edges, edge);
  }

  lemma PresentDependsOn(p: set<string>, q: set<string>, edges: seq<Edge>)
    requires forall e :: e in edges ==> (e.targetId in p <==> e.targetId in q)
    ensures Present(p, edges) == Present(q, edges)
  {
    FilterEqual((e: Edge) => e.targetId in p, (e: Edge) => e.targetId in q, edges);
  }

  function LinesNode(target: Target): Node
    requires target.LinesTarget?
  {
    Node(TargetId(target), CodeTarget, Current, None, None, LinesOrigin(target))
  }

  function Attached(target: Target, a: Attachment): Attachment {
    match target
    case CommitTarget(commit) =>
      var nodes := InsertAbsent(a.nodes, commit.id, CommitNode(commit));
      Attachment(nodes, PutEdges(a.edges, PresentReferences(commit, nodes.Keys)))
    case LinesTarget(_, _, _, _, introducedBy) =>
      Attachment(
        PutAbsent(a.nodes[TargetId(target) := LinesNode(target)], IntroducedNodes(introducedBy)),
        PutEdges(a.edges, IntroducedEdges(target)))
  }

  lemma PutEdgesSnoc(m: map<string, Edge>, edges: seq<Edge>, edge: Edge)
    ensures PutEdges(m, edges + [edge]) == PutEdges(m, edges)[edge.id := edge]
  {
    assert (edges + [edge])[..|edges|] == edges;
  }

  lemma PutAbsentSnoc(m: map<string, Node>, nodes: seq<Node>, node: Node)
    ensures PutAbsent(m, nodes + [node]) == InsertAbsent(PutAbsent(m, nodes), node.id, node)
  {
    assert (nodes + [node])[..|nodes|] == nodes;
  }

  lemma AttachStep(edges: map<string, Edge>, present: set<string>, proposed: seq<Edge>, i: nat)
    requires i < |proposed|
    ensures PutEdges(edges, Present(present, proposed[..i + 1])) ==
            if proposed[i].targetId in present
            then PutEdges(edges, Present(present, proposed[..i]))[proposed[i].id := proposed[i]]
            else PutEdges(edges, Present(present, proposed[..i]))
  {
    var edge, before := proposed[i], Present(present, proposed[..i]);
    assert proposed[..i + 1] == proposed[..i] + [edge];
    PresentSnoc(present, proposed[..i], edge);
    if edge.targetId in present {
      PutEdgesSnoc(edges, before, edge);
    } else {
      assert before + [] == before;
    }
  }

  /** Inserts the proposed edges whose target record is present. */
  method AttachPresent(proposed: seq<Edge>, nodes: map<string, Node>, edges: map<string, Edge>)
    returns (attached: map<string, Edge>)
    ensures attached == PutEdges(edges, Present(nodes.Keys, proposed))
  {
    attached := edges;
    for i := 0 to |proposed|
      invariant attached == PutEdges(edges, Present(nodes.Keys, proposed[..i]))
    {
      AttachStep(edges, nodes.Keys, proposed, i);
      if proposed[i].targetId in nodes {
        attached := attached[proposed[i].id := proposed[i]];
      }
    }
    assert proposed[..|proposed|] == proposed;
  }

  method AttachCommitReferences(commit: Commit, nodes: map<string, Node>, edges: map<string, Edge>)
    returns (attached: map<string, Edge>)
    ensures attached == PutEdges(edges, PresentReferences(commit, nodes.Keys))
  {
    attached := AttachPresent(CommitReferenceEdges(commit), nodes, edges);
  }

  method AttributeLines(target: Target, nodes: map<string, Node>, edges: map<string, Edge>)
    returns (attachment: Attachment)
    requires target.LinesTarget?
    ensures attachment == Attachment(
                            PutAbsent(nodes, IntroducedNodes(target.introducedBy)),
                            PutEdges(edges, IntroducedEdges(target)))
  {
    ghost var records, links := IntroducedNodes(target.introducedBy), IntroducedEdges(target);
    var ns, es := nodes, edges;
    for i := 0 to |target.introducedBy|
      invariant ns == PutAbsent(nodes, records[..i])
      invariant es == PutEdges(edges, links[..i])
    {
      var commitId := target.introducedBy[i];
      var node, edge := ChangeNode(commitId, None), IntroducedEdge(target, commitId);
      assert records[i] == node && links[i] == edge;
      AttributeStep(nodes, edges, records, links, i);
      ns := InsertAbsent(ns, commitId, node);
      es := es[edge.id := edge];
    }
    assert records[..|records|] == records && links[..|links|] == links;
    attachment := Attachment(ns, es);
  }

  lemma AttributeStep(
    nodes: map<string, Node>, edges: map<string, Edge>, records: seq<Node>, links: seq<Edge>, i: nat)
    requires i < |records| == |links|
    ensures PutAbsent(nodes, records[..i + 1])
            == InsertAbsent(PutAbsent(nodes, records[..i]), records[i].id, records[i])
    ensures PutEdges(edges, links[..i + 1]) == PutEdges(edges, links[..i])[links[i].id := links[i]]
  {
    assert records[..i + 1] == records[..i] + [records[i]] && links[..i + 1] == links[..i] + [links[i]];
    PutAbsentSnoc(nodes, records[..i], records[i]);
    PutEdgesSnoc(edges, links[..i], links[i]);
  }

  method AttachTarget(target: Target, nodes: map<string, Node>, edges: map<string, Edge>)
    returns (attachment: Attachment, targetId: string)
    ensures attachment == Attached(target, Attachment(nodes, edges))
    ensures targetId == TargetId(target)
  {
    targetId := TargetId(target);
    match target
    case CommitTarget(commit) =>
      var ns := InsertAbsent(nodes, commit.id, CommitNode(commit));
      var es := AttachCommitReferences(commit, ns, edges);
      attachment := Attachment(ns, es);
    case LinesTarget(_, _, _, _, introducedBy) =>
      attachment := AttributeLines(target, nodes[targetId := LinesNode(target)], edges);
  }

  // ----- what attachment adds

  /** Inserting in turn is overlaying what the insertions alone build. */
  lemma {:induction false} PutEdgesOverlay(m: map<string, Edge>, edges: seq<Edge>)
    ensures PutEdges(m, edges) == m + PutEdges(map[], edges)
  {
    if edges != [] {
      PutEdgesOverlay(m, edges[..|edges| - 1]);
    }
  }

  lemma {:induction false} PutAbsentOverlay(m: map<string, Node>, nodes: seq<Node>)
    ensures PutAbsent(m, nodes) == PutAbsent(map[], nodes) + m
  {
    if nodes != [] {
      PutAbsentOverlay(m, nodes[..|nodes| - 1]);
    }
  }

  lemma {:induction false} PutEdgesMembers(edges: seq<Edge>)
    ensures forall k :: k in PutEdges(map[], edges) ==>
              PutEdges(map[], edges)[k] in edges && PutEdges(map[], edges)[k].id == k
    ensures forall e :: e in edges ==> e.id in PutEdges(map[], edges)
  {
    if edges != [] {
      var init, last := edges[..|edges| - 1], edges[|edges| - 1];
      PutEdgesMembers(init);
      assert edges == init + [last];
    }
  }

  lemma {:induction false} PutAbsentMembers(nodes: seq<Node>)
    ensures forall k :: k in PutAbsent(map[], nodes) ==>
              PutAbsent(map[], nodes)[k] in nodes && PutAbsent(map[], nodes)[k].id == k
    ensures forall n :: n in nodes ==> n.id in PutAbsent(map[], nodes)
  {
    if nodes != [] {
      var init, last := nodes[..|nodes| - 1], nodes[|nodes| - 1];
      PutAbsentMembers(init);
      assert nodes == init + [last];
    }
  }

  lemma IntroducedNodesMembers(commitIds: seq<string>)
    ensures forall k :: k in PutAbsent(map[], IntroducedNodes(commitIds)) <==> k in commitIds
    ensures forall k :: k in PutAbsent(map[], IntroducedNodes(commitIds)) ==>
              PutAbsent(map[], IntroducedNodes(commitIds))[k].id == k
  {
    var nodes := IntroducedNodes(commitIds);
    PutAbsentMembers(nodes);
    assert forall i :: 0 <= i < |commitIds| ==> nodes[i].id == commitIds[i];
    forall k | k in commitIds
      ensures k in PutAbsent(map[], nodes)
    {
      var i :| 0 <= i < |commitIds| && commitIds[i] == k;
      assert nodes[i] in nodes;
    }
    forall k | k in PutAbsent(map[], nodes)
      ensures k in commitIds
    {
      var n := PutAbsent(map[], nodes)[k];
      var i :| 0 <= i < |nodes| && nodes[i] == n;
    }
  }
}
