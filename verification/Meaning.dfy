/** What a request says, independently of how the kernel computes: well-formedness,
    activity, links, walks, anchors and conflicts, and their agreement with the kernel's
    indexed view. */
module Meaning {
  import opened Sequences
  import opened Duplicates
  import opened Model
  import opened Graph
  import opened Traversal
  import opened Evaluator
  import Rules

  ghost predicate HasNode(r: Request, id: string) {
    exists n :: n in r.nodes && n.id == id
  }

  ghost predicate DistinctNodeIds(nodes: seq<Node>) {
    forall i, j :: 0 <= i < j < |nodes| ==> nodes[i].id != nodes[j].id
  }

  ghost predicate WellFormed(r: Request) {
    && WellShaped(r)
    && HasNode(r, r.goal.targetId)
    && (forall e :: e in r.edges ==> HasNode(r, e.sourceId) && HasNode(r, e.targetId))
    && (forall c :: c in r.conflicts ==> HasNode(r, c.leftNodeId) && HasNode(r, c.rightNodeId))
  }

  ghost predicate WellShaped(r: Request) {
    && r.protocolVersion == 1
    && |r.nodes| <= Rules.MAX_NODES
    && |r.edges| <= Rules.MAX_EDGES
    && r.goal.anchorKinds != []
    && (forall k :: k in r.goal.anchorKinds ==> k == Decision || k == WorkItem)
    && DistinctNodeIds(r.nodes)
    && DistinctEdgeIds(r.edges)
  }

  /** A current Supersedes edge from a current node makes its target historical. */
  ghost predicate Displaced(r: Request, id: string) {
    exists e, n ::
      && e in r.edges && e.status == Current && e.kind == Supersedes && e.targetId == id
      && n in r.nodes && n.id == e.sourceId && n.status == Current
  }

  ghost predicate ActiveRecord(r: Request, n: Node) {
    n in r.nodes && n.status == Current && !Displaced(r, n.id)
  }

  ghost predicate Active(r: Request, id: string) {
    exists n :: ActiveRecord(r, n) && n.id == id
  }

  ghost predicate Link(r: Request, e: Edge) {
    && e in r.edges && e.status == Current && e.kind != Supersedes
    && Active(r, e.sourceId) && Active(r, e.targetId)
  }

  ghost predicate Walk(r: Request, w: seq<Edge>, id: string) {
    if w == [] then id == r.goal.targetId
    else
      var last := w[|w| - 1];
      Link(r, last) && last.targetId == id && Walk(r, w[..|w| - 1], last.sourceId)
  }

  /** Some walk along links leads from the target to `id`; it may repeat nodes and edges. */
  ghost predicate Reaches(r: Request, id: string) {
    exists w :: Walk(r, w, id)
  }

  ghost predicate AnchorRecord(r: Request, n: Node) {
    ActiveRecord(r, n) && n.kind in r.goal.anchorKinds
  }

  ghost predicate AnchorReached(r: Request) {
    exists n :: AnchorRecord(r, n) && Reaches(r, n.id)
  }

  /** Two decisions with different outcomes for one subject. */
  ghost predicate Contradict(left: Node, right: Node) {
    && left.id != right.id
    && left.kind == Decision && right.kind == Decision
    && left.subjectId.Some? && left.subjectId == right.subjectId
    && left.outcomeId.Some? && right.outcomeId.Some? && left.outcomeId != right.outcomeId
  }

  ghost predicate Engaged(r: Request, id: string) {
    Active(r, id) && Reaches(r, id)
  }

  ghost predicate ExplicitConflict(r: Request) {
    exists c :: c in r.conflicts && Engaged(r, c.leftNodeId) && Engaged(r, c.rightNodeId)
  }

  ghost predicate StructuredConflict(r: Request) {
    exists x, y ::
      x in r.nodes && y in r.nodes && Contradict(x, y) && Engaged(r, x.id) && Engaged(r, y.id)
  }

  ghost predicate InConflict(r: Request) {
    ExplicitConflict(r) || StructuredConflict(r)
  }

  /** The target has a link to another node. */
  ghost predicate Departs(r: Request) {
    exists e :: Link(r, e) && e.sourceId == r.goal.targetId && e.targetId != r.goal.targetId
  }

  // ----- the index agrees with the list

  lemma {:induction false} NodeMapKeys(nodes: seq<Node>)
    ensures forall id :: id in NodeMap(nodes) <==> exists n :: n in nodes && n.id == id
  {
    if nodes != [] {
      var init := nodes[..|nodes| - 1];
      NodeMapKeys(init);
      assert nodes == init + [nodes[|nodes| - 1]];
    }
  }

  lemma {:induction false} NodeMapLookup(nodes: seq<Node>)
    requires DistinctNodeIds(nodes)
    ensures forall n :: n in nodes ==> n.id in NodeMap(nodes) && NodeMap(nodes)[n.id] == n
    ensures forall id :: id in NodeMap(nodes) ==> NodeMap(nodes)[id] in nodes && NodeMap(nodes)[id].id == id
  {
    if nodes != [] {
      var init, last := nodes[..|nodes| - 1], nodes[|nodes| - 1];
      assert forall i :: 0 <= i < |init| ==> init[i] == nodes[i];
      NodeMapLookup(init);
      LastNodeNew(nodes);
      assert NodeMap(nodes) == NodeMap(init)[last.id := last];
      assert forall n :: n in nodes <==> n in init || n == last by {
        assert nodes == init + [last];
      }
    }
  }

  lemma LastNodeNew(nodes: seq<Node>)
    requires DistinctNodeIds(nodes) && nodes != []
    ensures forall n :: n in nodes[..|nodes| - 1] ==> n.id != nodes[|nodes| - 1].id
  {
    var init := nodes[..|nodes| - 1];
    forall n | n in init
      ensures n.id != nodes[|nodes| - 1].id
    {
      var i :| 0 <= i < |init| && init[i] == n;
      assert nodes[i] == n;
    }
  }

  // ----- duplicates

  lemma DistinctIdsMeaning(r: Request)
    ensures Distinct(NodeIds(r.nodes)) <==> DistinctNodeIds(r.nodes)
    ensures Distinct(EdgeIds(r.edges)) <==> DistinctEdgeIds(r.edges)
  {
    var ns, es := NodeIds(r.nodes), EdgeIds(r.edges);
    assert forall i :: 0 <= i < |ns| ==> ns[i] == r.nodes[i].id;
    assert forall i :: 0 <= i < |es| ==> es[i] == r.edges[i].id;
  }

  lemma IdsMeaning(r: Request)
    ensures ValidateIds(r).None? <==> DistinctNodeIds(r.nodes) && DistinctEdgeIds(r.edges)
  {
    DuplicateMeaning(NodeIds(r.nodes));
    DuplicateMeaning(EdgeIds(r.edges));
    DistinctIdsMeaning(r);
  }

  lemma GoalMeaning(goal: Goal)
    ensures ValidateGoal(goal).None? <==>
            && goal.anchorKinds != []
            && forall k :: k in goal.anchorKinds ==> k == Decision || k == WorkItem
  {
  }

  lemma ShapeMeaning(r: Request)
    ensures ValidateShape(r).None? <==> WellShaped(r)
  {
    GoalMeaning(r.goal);
    IdsMeaning(r);
  }

  lemma IndexedMeaning(r: Request)
    ensures NodeMap(r.nodes).Keys == set n | n in r.nodes :: n.id
    ensures forall id :: id in NodeMap(r.nodes).Keys <==> HasNode(r, id)
  {
    NodeMapKeys(r.nodes);
  }

  lemma DanglingMeaning(r: Request)
    ensures FirstDanglingEdge(NodeMap(r.nodes).Keys, r.edges).None? <==>
            forall e :: e in r.edges ==> HasNode(r, e.sourceId) && HasNode(r, e.targetId)
    ensures FirstDanglingConflict(NodeMap(r.nodes).Keys, r.conflicts).None? <==>
            forall c :: c in r.conflicts ==> HasNode(r, c.leftNodeId) && HasNode(r, c.rightNodeId)
  {
    IndexedMeaning(r);
  }

  lemma ReferencesMeaning(r: Request)
    ensures ValidateReferences(r, NodeMap(r.nodes).Keys).None? <==>
            && HasNode(r, r.goal.targetId)
            && (forall e :: e in r.edges ==> HasNode(r, e.sourceId) && HasNode(r, e.targetId))
            && (forall c :: c in r.conflicts ==> HasNode(r, c.leftNodeId) && HasNode(r, c.rightNodeId))
  {
    DanglingMeaning(r);
    assert r.goal.targetId in NodeMap(r.nodes).Keys <==> HasNode(r, r.goal.targetId) by {
      IndexedMeaning(r);
    }
  }

  lemma ValidateSteps(r: Request)
    ensures Validate(r).Ok? <==>
            ValidateShape(r).None? && ValidateReferences(r, NodeMap(r.nodes).Keys).None?
    ensures Validate(r).Ok? ==> Validate(r).value == NodeMap(r.nodes)
  {
  }

  /** The kernel accepts exactly the well-formed requests. */
  lemma {:induction false} ValidateMeaning(r: Request)
    ensures Validate(r).Ok? <==> WellFormed(r)
    ensures Validate(r).Ok? ==> Validate(r).value == NodeMap(r.nodes)
  {
    ValidateSteps(r);
    ShapeMeaning(r);
    ReferencesMeaning(r);
  }

  // ----- the view agrees with the request

  function KernelView(r: Request): View {
    ViewOf(NodeMap(r.nodes), r.edges)
  }

  lemma DisplacedMeaning(r: Request, id: string)
    requires DistinctNodeIds(r.nodes)
    ensures id in KernelView(r).superseded <==> Displaced(r, id)
  {
    var nodes := NodeMap(r.nodes);
    SupersededMeaning(nodes, r.edges, id);
    NodeMapLookup(r.nodes);
    if Displaced(r, id) {
      var e, n :|
        && e in r.edges && e.status == Current && e.kind == Supersedes && e.targetId == id
        && n in r.nodes && n.id == e.sourceId && n.status == Current;
      assert Displaces(nodes, e);
    }
    if id in KernelView(r).superseded {
      var e :| e in r.edges && Displaces(nodes, e) && e.targetId == id;
      assert nodes[e.sourceId] in r.nodes;
    }
  }

  lemma ActiveMeaning(r: Request, id: string)
    requires DistinctNodeIds(r.nodes)
    ensures KernelView(r).Active(id) <==> Active(r, id)
    ensures KernelView(r).Active(id) ==> ActiveRecord(r, KernelView(r).nodes[id])
  {
    NodeMapLookup(r.nodes);
    DisplacedMeaning(r, id);
    var nodes := NodeMap(r.nodes);
    if KernelView(r).Active(id) {
      assert ActiveRecord(r, nodes[id]) && nodes[id].id == id;
    }
    if Active(r, id) {
      var n :| ActiveRecord(r, n) && n.id == id;
      assert nodes[id] == n;
    }
  }

  lemma LinkMeaning(r: Request, e: Edge)
    requires DistinctNodeIds(r.nodes) && DistinctEdgeIds(r.edges)
    ensures e in KernelView(r).edges <==> Link(r, e)
    ensures DistinctEdgeIds(KernelView(r).edges)
  {
    var view := KernelView(r);
    ActiveEdgesDistinct(view.nodes, view.superseded, r.edges);
    ActiveMeaning(r, e.sourceId);
    ActiveMeaning(r, e.targetId);
  }
}
