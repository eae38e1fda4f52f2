/** What withdrawing evidence can do to a verdict. */
module Removal {
  import opened Sequences
  import opened Ordering
  import opened Model
  import opened Proof
  import opened Graph
  import opened Traversal
  import opened Evaluator
  import opened Paths
  import opened Meaning
  import opened Verdicts
  import opened Chains

  /** `s` asks the same question with some edges withdrawn, none of them a supersession. */
  ghost predicate Withdraws(r: Request, s: Request) {
    && s == r.(edges := s.edges)
    && |s.edges| <= |r.edges|
    && DistinctEdgeIds(s.edges)
    && (forall e :: e in s.edges ==> e in r.edges)
    && (forall e :: e in r.edges && e.kind == Supersedes ==> e in s.edges)
  }

  lemma WithdrawnWellFormed(r: Request, s: Request)
    requires WellFormed(r) && Withdraws(r, s)
    ensures WellFormed(s)
  {
    assert forall id :: HasNode(s, id) <==> HasNode(r, id);
  }

  /** Activity depends on supersession only, so it is untouched. */
  lemma WithdrawnActive(r: Request, s: Request, id: string)
    requires Withdraws(r, s)
    ensures Active(s, id) <==> Active(r, id)
    ensures forall n :: ActiveRecord(s, n) <==> ActiveRecord(r, n)
  {
    forall x: string
      ensures Displaced(s, x) <==> Displaced(r, x)
    {
      if Displaced(r, x) {
        var e, n :|
          && e in r.edges && e.status == Current && e.kind == Supersedes && e.targetId == x
          && n in r.nodes && n.id == e.sourceId && n.status == Current;
        assert e in s.edges;
      }
    }
  }

  lemma WithdrawnLink(r: Request, s: Request, e: Edge)
    requires Withdraws(r, s)
    ensures Link(s, e) <==> Link(r, e) && e in s.edges
  {
    WithdrawnActive(r, s, e.sourceId);
    WithdrawnActive(r, s, e.targetId);
  }

  lemma {:induction false} WithdrawnWalk(r: Request, s: Request, w: seq<Edge>, id: string)
    requires Withdraws(r, s) && Walk(s, w, id)
    ensures Walk(r, w, id)
  {
    if w != [] {
      var last := w[|w| - 1];
      WithdrawnLink(r, s, last);
      WithdrawnWalk(r, s, w[..|w| - 1], last.sourceId);
    }
  }

  lemma WithdrawnReach(r: Request, s: Request, id: string)
    requires Withdraws(r, s)
    ensures Reaches(s, id) ==> Reaches(r, id)
    ensures Engaged(s, id) ==> Engaged(r, id)
  {
    if Reaches(s, id) {
      var w :| Walk(s, w, id);
      WithdrawnWalk(r, s, w, id);
    }
    WithdrawnActive(r, s, id);
  }

  /** Every hop of the path uses an edge that was kept. */
  ghost predicate UsesOnly(edges: seq<Edge>, p: Path) {
    forall id :: id in p.edgeIds ==> exists e :: e in edges && e.id == id
  }

  lemma HopLeft(r: Request, s: Request, p: Path, i: nat)
    requires WellFormed(r) && WellFormed(s) && Withdraws(r, s) && i < |p.edgeIds|
    requires SimplePath(KernelView(s), r.goal.targetId, p)
    ensures Step(KernelView(r), p.nodeIds[i], p.edgeIds[i], p.nodeIds[i + 1])
    ensures exists e :: e in s.edges && e.id == p.edgeIds[i]
  {
    var e := HopLink(s, p, i);
    WithdrawnLink(r, s, e);
    LinkIsStep(r, e);
  }

  lemma HopKept(r: Request, s: Request, p: Path, i: nat)
    requires WellFormed(r) && WellFormed(s) && Withdraws(r, s) && i < |p.edgeIds|
    requires SimplePath(KernelView(r), r.goal.targetId, p) && UsesOnly(s.edges, p)
    ensures Step(KernelView(s), p.nodeIds[i], p.edgeIds[i], p.nodeIds[i + 1])
  {
    var e := HopLink(r, p, i);
    assert p.edgeIds[i] in p.edgeIds;
    var kept :| kept in s.edges && kept.id == e.id;
    SameIdSameEdge(r.edges, e, kept);
    WithdrawnLink(r, s, e);
    LinkIsStep(s, e);
  }

  /** The simple paths left are those that avoid the withdrawn edges. */
  lemma WithdrawnPaths(r: Request, s: Request, p: Path)
    requires WellFormed(r) && Withdraws(r, s)
    ensures SimplePath(KernelView(s), r.goal.targetId, p) <==>
            SimplePath(KernelView(r), r.goal.targetId, p) && UsesOnly(s.edges, p)
  {
    WithdrawnWellFormed(r, s);
    if SimplePath(KernelView(s), r.goal.targetId, p) {
      forall i | 0 <= i < |p.edgeIds|
        ensures Step(KernelView(r), p.nodeIds[i], p.edgeIds[i], p.nodeIds[i + 1])
        ensures exists e :: e in s.edges && e.id == p.edgeIds[i]
      {
        HopLeft(r, s, p, i);
      }
    }
    if SimplePath(KernelView(r), r.goal.targetId, p) && UsesOnly(s.edges, p) {
      forall i | 0 <= i < |p.edgeIds|
        ensures Step(KernelView(s), p.nodeIds[i], p.edgeIds[i], p.nodeIds[i + 1])
      {
        HopKept(r, s, p, i);
      }
    }
  }

  lemma SameIdSameEdge(edges: seq<Edge>, e: Edge, f: Edge)
    requires DistinctEdgeIds(edges) && e in edges && f in edges && e.id == f.id
    ensures e == f
  {
    var i :| 0 <= i < |edges| && edges[i] == e;
    var j :| 0 <= j < |edges| && edges[j] == f;
  }

  lemma WithdrawnCount(r: Request, s: Request)
    requires WellFormed(r) && Withdraws(r, s)
    ensures |AllPaths(KernelView(s), r.goal.targetId)| <= |AllPaths(KernelView(r), r.goal.targetId)|
  {
    WithdrawnWellFormed(r, s);
    ViewEdgesDistinct(r);
    ViewEdgesDistinct(s);
    TraversalExactness(KernelView(r), r.goal.targetId);
    TraversalExactness(KernelView(s), r.goal.targetId);
    var after := AllPaths(KernelView(s), r.goal.targetId);
    forall p | p in after
      ensures p in AllPaths(KernelView(r), r.goal.targetId)
    {
      WithdrawnPaths(r, s, p);
    }
    SubsetLength(after, AllPaths(KernelView(r), r.goal.targetId));
  }

  lemma WithdrawnMeaning(r: Request, s: Request)
    requires WellFormed(r) && Withdraws(r, s)
    ensures InConflict(s) ==> InConflict(r)
    ensures AnchorReached(s) ==> AnchorReached(r)
    ensures Departs(s) ==> Departs(r)
  {
    forall id
      ensures Engaged(s, id) ==> Engaged(r, id)
      ensures Reaches(s, id) ==> Reaches(r, id)
    {
      WithdrawnReach(r, s, id);
    }
    WithdrawnActive(r, s, r.goal.targetId);
    if Departs(s) {
      var e :| Link(s, e) && e.sourceId == r.goal.targetId && e.targetId != r.goal.targetId;
      WithdrawnLink(r, s, e);
    }
  }

  function VerdictOf(r: Request): Verdict
    requires Evaluation(r).ProofResponse?
  {
    Evaluation(r).proof.verdict
  }

  /** Withdrawing edges never makes an answered request fail, and never strengthens it: an
      incomplete proof stays incomplete, and a conflict or a gap at the target is not created
      and undone respectively. */
  lemma RemovalMonotonicity(r: Request, s: Request)
    requires Evaluation(r).ProofResponse? && Withdraws(r, s)
    ensures Evaluation(s).ProofResponse?
    ensures VerdictOf(r) in {Partial, NotEstablished} ==> VerdictOf(s) in {Partial, NotEstablished}
    ensures VerdictOf(r) == NotEstablished ==> VerdictOf(s) == NotEstablished
    ensures VerdictOf(s) == Conflicted ==> VerdictOf(r) == Conflicted
    ensures forall p: Path :: AnchorPath(s, p) ==> AnchorPath(r, p)
    ensures forall c :: ConflictHolds(s, c) ==> ConflictHolds(r, c)
    ensures forall id :: Reaches(s, id) ==> Reaches(r, id)
  {
    forall id
      ensures Reaches(s, id) ==> Reaches(r, id)
    {
      WithdrawnReach(r, s, id);
    }
    EvaluationMeaning(r);
    EvaluationMeaning(s);
    WithdrawnWellFormed(r, s);
    WithdrawnCount(r, s);
    WithdrawnMeaning(r, s);
    VerdictCharacterisation(r);
    VerdictCharacterisation(s);
    forall p: Path | AnchorPath(s, p)
      ensures AnchorPath(r, p)
    {
      WithdrawnPaths(r, s, p);
      WithdrawnActive(r, s, Last(p));
    }
    forall c | ConflictHolds(s, c)
      ensures ConflictHolds(r, c)
    {
      WithdrawnReach(r, s, c.leftNodeId);
      WithdrawnReach(r, s, c.rightNodeId);
    }
  }

  lemma AnchorPathExists(r: Request)
    requires WellFormed(r)
    ensures AnchorReached(r) <==> exists p: Path :: AnchorPath(r, p)
  {
    AnchorsMeaning(r);
    var anchors := AnchorPaths(r.goal, KernelView(r), AllPaths(KernelView(r), r.goal.targetId));
    if anchors != [] {
      ReverseMembers(anchors, anchors[0]);
      AnchorPathMembers(r, anchors[0]);
    }
    if p: Path :| AnchorPath(r, p) {
      AnchorPathMembers(r, p);
      ReverseMembers(anchors, p);
    }
  }

  // ----- every verdict after a withdrawal

  /** Some simple path to the node avoids everything withdrawn. */
  ghost predicate StillReached(r: Request, edges: seq<Edge>, id: string) {
    exists p: Path :: SimplePath(KernelView(r), r.goal.targetId, p) && UsesOnly(edges, p) && Last(p) == id
  }

  lemma WithdrawnReaches(r: Request, s: Request, id: string)
    requires WellFormed(r) && Withdraws(r, s)
    ensures Reaches(s, id) <==> StillReached(r, s.edges, id)
  {
    WithdrawnWellFormed(r, s);
    if Reaches(s, id) {
      var w :| Walk(s, w, id);
      var p := WalkToPath(s, w, id);
      WithdrawnPaths(r, s, p);
    }
    if StillReached(r, s.edges, id) {
      var p: Path :| SimplePath(KernelView(r), r.goal.targetId, p) && UsesOnly(s.edges, p) && Last(p) == id;
      WithdrawnPaths(r, s, p);
      var w := PathToWalk(s, p);
    }
  }

  /** A conflict survives when both of its sides are still reached. */
  ghost predicate ConflictSurvives(r: Request, edges: seq<Edge>, c: Conflict) {
    ConflictHolds(r, c) && StillReached(r, edges, c.leftNodeId) && StillReached(r, edges, c.rightNodeId)
  }

  ghost predicate AnchorSurvives(r: Request, edges: seq<Edge>, p: Path) {
    AnchorPath(r, p) && UsesOnly(edges, p)
  }

  lemma WithdrawnConflict(r: Request, s: Request, c: Conflict)
    requires WellFormed(r) && Withdraws(r, s)
    ensures ConflictHolds(s, c) <==> ConflictSurvives(r, s.edges, c)
  {
    WithdrawnReaches(r, s, c.leftNodeId);
    WithdrawnReaches(r, s, c.rightNodeId);
    WithdrawnReach(r, s, c.leftNodeId);
    WithdrawnReach(r, s, c.rightNodeId);
  }

  lemma WithdrawnAnchor(r: Request, s: Request, p: Path)
    requires WellFormed(r) && Withdraws(r, s)
    ensures AnchorPath(s, p) <==> AnchorSurvives(r, s.edges, p)
  {
    WithdrawnPaths(r, s, p);
    WithdrawnActive(r, s, Last(p));
  }

  lemma StructuredHolds(r: Request, x: Node, y: Node) returns (c: Conflict)
    requires x in r.nodes && y in r.nodes && Contradict(x, y) && Engaged(r, x.id) && Engaged(r, y.id)
    ensures ConflictHolds(r, c)
  {
    assert StringLess(x.id, y.id) || StringLess(y.id, x.id) by {
      StringOrder();
    }
    if StringLess(x.id, y.id) {
      c := Conflict(x.id, y.id, SUBJECT_OUTCOME);
    } else {
      assert Contradict(y, x);
      c := Conflict(y.id, x.id, SUBJECT_OUTCOME);
    }
  }

  /** The two ways of stating that a request is in conflict. */
  lemma ConflictExists(r: Request)
    requires WellFormed(r)
    ensures InConflict(r) <==> exists c :: ConflictHolds(r, c)
  {
    if StructuredConflict(r) {
      var x, y :| x in r.nodes && y in r.nodes && Contradict(x, y) && Engaged(r, x.id) && Engaged(r, y.id);
      var c := StructuredHolds(r, x, y);
    }
    if ExplicitConflict(r) {
      var c :| c in r.conflicts && Engaged(r, c.leftNodeId) && Engaged(r, c.rightNodeId);
      assert ConflictHolds(r, c);
    }
  }

  lemma ConflictAfter(r: Request, s: Request)
    requires WellFormed(r) && Withdraws(r, s)
    ensures InConflict(s) <==> exists c :: ConflictSurvives(r, s.edges, c)
  {
    WithdrawnWellFormed(r, s);
    ConflictExists(s);
    forall c
      ensures ConflictHolds(s, c) <==> ConflictSurvives(r, s.edges, c)
    {
      WithdrawnConflict(r, s, c);
    }
  }

  lemma AnchorAfter(r: Request, s: Request)
    requires WellFormed(r) && Withdraws(r, s)
    ensures AnchorReached(s) <==> exists p: Path :: AnchorSurvives(r, s.edges, p)
  {
    WithdrawnWellFormed(r, s);
    AnchorPathExists(s);
    forall p: Path
      ensures AnchorPath(s, p) <==> AnchorSurvives(r, s.edges, p)
    {
      WithdrawnAnchor(r, s, p);
    }
  }

  /** The target keeps a link to another node. */
  ghost predicate StillDeparts(r: Request, edges: seq<Edge>) {
    exists e :: Link(r, e) && e in edges && e.sourceId == r.goal.targetId && e.targetId != r.goal.targetId
  }

  lemma DepartsAfter(r: Request, s: Request)
    requires Withdraws(r, s)
    ensures Departs(s) <==> StillDeparts(r, s.edges)
  {
    forall e
      ensures Link(s, e) <==> Link(r, e) && e in s.edges
    {
      WithdrawnLink(r, s, e);
    }
  }

  /** What any answered request becomes when edges are withdrawn: in conflict exactly when a
      conflict keeps both of its sides reached, established exactly when none does and some path
      to an anchor survives, and otherwise incomplete. A conflicted answer can so become
      established. */
  lemma RemovalVerdict(r: Request, s: Request)
    requires Evaluation(r).ProofResponse? && Withdraws(r, s)
    ensures Evaluation(s).ProofResponse?
    ensures VerdictOf(s) == Conflicted <==> exists c :: ConflictSurvives(r, s.edges, c)
    ensures VerdictOf(s) == Established <==>
            && (forall c :: !ConflictSurvives(r, s.edges, c))
            && exists p: Path :: AnchorSurvives(r, s.edges, p)
    ensures VerdictOf(s) == NotEstablished <==>
            && (forall c :: !ConflictSurvives(r, s.edges, c))
            && (forall p: Path :: !AnchorSurvives(r, s.edges, p))
            && !StillDeparts(r, s.edges)
  {
    EvaluationMeaning(r);
    RemovalMonotonicity(r, s);
    VerdictCharacterisation(s);
    ConflictAfter(r, s);
    AnchorAfter(r, s);
    DepartsAfter(r, s);
  }

  /** An established answer survives exactly when some path to an anchor avoids everything
      withdrawn; otherwise it becomes partial or not established. */
  lemma DecisiveRemoval(r: Request, s: Request)
    requires Evaluation(r).ProofResponse? && VerdictOf(r) == Established && Withdraws(r, s)
    ensures Evaluation(s).ProofResponse?
    ensures VerdictOf(s) == Established <==> exists p: Path :: AnchorSurvives(r, s.edges, p)
    ensures VerdictOf(s) != Established ==> VerdictOf(s) in {Partial, NotEstablished}
  {
    RemovalVerdict(r, s);
    VerdictCharacterisation(r);
    ConflictExists(r);
  }

  // ----- one edge

  function RemoveEdge(r: Request, i: nat): Request
    requires i < |r.edges|
  {
    r.(edges := r.edges[..i] + r.edges[i + 1..])
  }

  lemma RemovedRest(r: Request, i: nat)
    requires DistinctEdgeIds(r.edges) && i < |r.edges|
    ensures |RemoveEdge(r, i).edges| == |r.edges| - 1 && DistinctEdgeIds(RemoveEdge(r, i).edges)
    ensures forall e :: e in RemoveEdge(r, i).edges ==> e in r.edges && e.id != r.edges[i].id
  {
    var s := RemoveEdge(r, i);
    assert forall j :: 0 <= j < |s.edges| ==> s.edges[j] == r.edges[if j < i then j else j + 1];
  }

  lemma RemovedOnly(r: Request, i: nat, e: Edge)
    requires i < |r.edges| && e in r.edges && e != r.edges[i]
    ensures e in RemoveEdge(r, i).edges
  {
    var j :| 0 <= j < |r.edges| && r.edges[j] == e;
    assert RemoveEdge(r, i).edges[if j < i then j else j - 1] == e;
  }

  lemma RemoveEdgeWithdraws(r: Request, i: nat)
    requires DistinctEdgeIds(r.edges)
    requires i < |r.edges| && r.edges[i].kind != Supersedes
    ensures Withdraws(r, RemoveEdge(r, i))
    ensures forall p: Path :: UsesOnly(RemoveEdge(r, i).edges, p) <==>
              UsesOnly(r.edges, p) && r.edges[i].id !in p.edgeIds
  {
    RemovedRest(r, i);
    forall e | e in r.edges && e != r.edges[i]
      ensures e in RemoveEdge(r, i).edges
    {
      RemovedOnly(r, i, e);
    }
  }

  lemma PathUsesEdges(r: Request, p: Path)
    requires WellFormed(r) && SimplePath(KernelView(r), r.goal.targetId, p)
    ensures UsesOnly(r.edges, p)
  {
    forall id | id in p.edgeIds
      ensures exists e :: e in r.edges && e.id == id
    {
      var i :| 0 <= i < |p.edgeIds| && p.edgeIds[i] == id;
      var e := HopLink(r, p, i);
    }
  }

  /** Deleting one edge downgrades an established answer iff it lies on every path to an anchor. */
  lemma DecisiveEdge(r: Request, i: nat)
    requires Evaluation(r).ProofResponse? && VerdictOf(r) == Established
    requires i < |r.edges| && r.edges[i].kind != Supersedes
    ensures Evaluation(RemoveEdge(r, i)).ProofResponse?
    ensures VerdictOf(RemoveEdge(r, i)) in {Partial, NotEstablished} <==>
            forall p: Path :: AnchorPath(r, p) ==> r.edges[i].id in p.edgeIds
  {
    EvaluationMeaning(r);
    var s := RemoveEdge(r, i);
    forall p: Path
      ensures AnchorSurvives(r, s.edges, p) <==> AnchorPath(r, p) && r.edges[i].id !in p.edgeIds
    {
      if AnchorPath(r, p) {
        PathUsesEdges(r, p);
        RemoveEdgeWithdraws(r, i);
      }
    }
    RemoveEdgeWithdraws(r, i);
    DecisiveRemoval(r, s);
  }
}
