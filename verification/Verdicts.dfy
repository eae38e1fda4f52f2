/** When the kernel answers, and with which verdict. */
module Verdicts {
  import opened Wrappers
  import opened Sequences
  import opened Ordering
  import opened Model
  import opened Proof
  import opened Graph
  import opened Traversal
  import opened Evaluator
  import opened Paths
  import opened Meaning
  import Rules

  // ----- walks and simple paths reach the same nodes

  /** A link that continues a path without repeating a node makes a longer one. */
  lemma LinkExtends(s: Request, q: Path, e: Edge)
    requires WellFormed(s) && SimplePath(KernelView(s), s.goal.targetId, q)
    requires Link(s, e) && Last(q) == e.sourceId && e.targetId !in q.nodeIds
    ensures SimplePath(KernelView(s), s.goal.targetId, Append(q, e))
  {
    LinkMeaning(s, e);
    ActiveMeaning(s, e.sourceId);
    ExtendMembers(q, From(KernelView(s).edges, Last(q)), Append(q, e));
    SuccessorIsSimple(KernelView(s), s.goal.targetId, q, Append(q, e));
  }

  lemma {:induction false} WalkToPath(r: Request, w: seq<Edge>, id: string) returns (p: Path)
    requires WellFormed(r)
    requires Walk(r, w, id)
    ensures SimplePath(KernelView(r), r.goal.targetId, p) && Last(p) == id
  {
    var view, target := KernelView(r), r.goal.targetId;
    if w == [] {
      p := Root(target);
    } else {
      var e := w[|w| - 1];
      var q := WalkToPath(r, w[..|w| - 1], e.sourceId);
      if id in q.nodeIds {
        var k :| 0 <= k < |q.nodeIds| && q.nodeIds[k] == id;
        p := Take(q, k);
        TakeIsSimple(view, target, q, k);
      } else {
        p := Append(q, e);
        LinkExtends(r, q, e);
      }
    }
  }

  lemma {:induction false} PathToWalk(r: Request, p: Path) returns (w: seq<Edge>)
    requires WellFormed(r)
    requires SimplePath(KernelView(r), r.goal.targetId, p)
    ensures Walk(r, w, Last(p))
    decreases |p.edgeIds|
  {
    var view := KernelView(r);
    if p.edgeIds == [] {
      w := [];
    } else {
      var k := |p.edgeIds| - 1;
      TakeIsSimple(view, r.goal.targetId, p, k);
      var v := PathToWalk(r, Take(p, k));
      var e := HopLink(r, p, k);
      w := v + [e];
      assert w[..|w| - 1] == v;
    }
  }

  /** A path through at least one edge visits active nodes only. */
  lemma PathActive(r: Request, p: Path, k: nat)
    requires WellFormed(r) && SimplePath(KernelView(r), r.goal.targetId, p)
    requires p.edgeIds != [] && k < |p.nodeIds|
    ensures Active(r, p.nodeIds[k])
  {
    var i := if k < |p.edgeIds| then k else k - 1;
    var e := HopLink(r, p, i);
  }

  /** The link behind a hop of a path. */
  lemma HopLink(r: Request, p: Path, i: nat) returns (e: Edge)
    requires WellFormed(r) && SimplePath(KernelView(r), r.goal.targetId, p) && i < |p.edgeIds|
    ensures Link(r, e) && e.id == p.edgeIds[i] && e.sourceId == p.nodeIds[i] && e.targetId == p.nodeIds[i + 1]
  {
    assert Step(KernelView(r), p.nodeIds[i], p.edgeIds[i], p.nodeIds[i + 1]);
    e :| e in KernelView(r).edges && e.id == p.edgeIds[i]
         && e.sourceId == p.nodeIds[i] && e.targetId == p.nodeIds[i + 1];
    LinkMeaning(r, e);
  }

  lemma LinkIsStep(r: Request, e: Edge)
    requires WellFormed(r) && Link(r, e)
    ensures Step(KernelView(r), e.sourceId, e.id, e.targetId)
  {
    LinkMeaning(r, e);
    ActiveMeaning(r, e.sourceId);
  }

  /** The ends of the enumerated paths are the nodes some walk reaches. */
  lemma ReachableMeaning(r: Request)
    requires WellFormed(r)
    ensures forall id :: id in Ends(AllPaths(KernelView(r), r.goal.targetId)) <==> Reaches(r, id)
  {
    var view, target := KernelView(r), r.goal.targetId;
    ViewEdgesDistinct(r);
    TraversalExactness(view, target);
    forall id
      ensures id in Ends(AllPaths(view, target)) <==> Reaches(r, id)
    {
      if Reaches(r, id) {
        var w :| Walk(r, w, id);
        var p := WalkToPath(r, w, id);
        assert p in AllPaths(view, target);
      }
      if id in Ends(AllPaths(view, target)) {
        var p :| p in AllPaths(view, target) && Last(p) == id;
        var w := PathToWalk(r, p);
      }
    }
  }

  lemma ViewEdgesDistinct(r: Request)
    requires WellFormed(r)
    ensures DistinctEdgeIds(KernelView(r).edges)
  {
    var view := KernelView(r);
    ActiveEdgesDistinct(view.nodes, view.superseded, r.edges);
  }

  // ----- when the kernel answers

  lemma NothingAbsent(r: Request)
    requires WellFormed(r)
    ensures forall p :: p in AllPaths(KernelView(r), r.goal.targetId) ==> Last(p) in KernelView(r).nodes
  {
    var view, target := KernelView(r), r.goal.targetId;
    ViewEdgesDistinct(r);
    TraversalExactness(view, target);
    NodeMapKeys(r.nodes);
    forall p | p in AllPaths(view, target)
      ensures Last(p) in view.nodes
    {
      if p.edgeIds != [] {
        var k := |p.edgeIds| - 1;
        var e := HopLink(r, p, k);
        ActiveMeaning(r, e.targetId);
      }
    }
  }

  /** On a well-formed request the traversal is stopped by the cap alone. */
  lemma TraversedMeaning(r: Request)
    requires WellFormed(r)
    ensures var all := AllPaths(KernelView(r), r.goal.targetId);
            Traversed(r.goal, KernelView(r)) ==
            if |all| > Rules.MAX_PATH_STATES then Err(PATH_STATES)
            else Ok(Traversal(all, Reverse(AnchorPaths(r.goal, KernelView(r), all)), Ends(all)))
  {
    NothingAbsent(r);
  }

  lemma EvaluationMeaning(r: Request)
    ensures Evaluation(r).ProofResponse? <==>
            WellFormed(r) && |AllPaths(KernelView(r), r.goal.targetId)| <= Rules.MAX_PATH_STATES
    ensures WellFormed(r) && |AllPaths(KernelView(r), r.goal.targetId)| > Rules.MAX_PATH_STATES ==>
              Evaluation(r) == ErrorResponse(1, r.requestId, PATH_STATES)
    ensures Evaluation(r).ProofResponse? ==>
              && Traversed(r.goal, KernelView(r)).Ok?
              && var t := Traversed(r.goal, KernelView(r)).value;
                 Evaluation(r).proof
                 == Conclude(ConflictsFound(r, KernelView(r), t.reachable), KernelView(r), t)
  {
    ValidateMeaning(r);
    if WellFormed(r) {
      TraversedMeaning(r);
    }
  }

  /** Resource bound: a well-formed request is refused exactly when its target has more
      simple paths than the cap, and then with the path-state error. */
  lemma ResourceBoundExactness(r: Request, paths: set<Path>)
    requires WellFormed(r)
    requires forall p: Path :: p in paths <==> SimplePath(KernelView(r), r.goal.targetId, p)
    ensures |paths| > Rules.MAX_PATH_STATES <==>
            Evaluation(r) == ErrorResponse(1, r.requestId, PATH_STATES)
    ensures |paths| <= Rules.MAX_PATH_STATES <==> Evaluation(r).ProofResponse?
  {
    EvaluationMeaning(r);
    ViewEdgesDistinct(r);
    SimplePathCount(KernelView(r), r.goal.targetId, paths);
  }

  // ----- conflicts

  lemma {:induction false} DisagreementMembers(left: Node, decisions: seq<Node>, c: Conflict)
    ensures c in Disagreements(left, decisions) <==>
            exists d :: d in decisions && Disagree(left, d) && c == Conflict(left.id, d.id, SUBJECT_OUTCOME)
  {
    if decisions != [] {
      DisagreementMembers(left, decisions[1..], c);
      assert decisions == [decisions[0]] + decisions[1..];
    }
  }

  lemma {:induction false} AllDisagreementMembers(lefts: seq<Node>, decisions: seq<Node>, c: Conflict)
    ensures c in AllDisagreements(lefts, decisions) <==>
            exists x, y :: x in lefts && y in decisions && Disagree(x, y)
                           && c == Conflict(x.id, y.id, SUBJECT_OUTCOME)
  {
    if lefts != [] {
      AllDisagreementMembers(lefts[1..], decisions, c);
      DisagreementMembers(lefts[0], decisions, c);
      assert lefts == [lefts[0]] + lefts[1..];
    }
  }

  /** Structured conflicts are the pairs of active decisions that disagree. */
  lemma StructuredMembers(nodes: map<string, Node>, superseded: set<string>, c: Conflict)
    ensures c in StructuredConflicts(nodes, superseded) <==>
            exists j, k :: j in nodes && k in nodes
                           && IsStructuredDecision(superseded, nodes[j])
                           && IsStructuredDecision(superseded, nodes[k])
                           && Disagree(nodes[j], nodes[k])
                           && c == Conflict(nodes[j].id, nodes[k].id, SUBJECT_OUTCOME)
  {
    var decisions := Filter((n: Node) => IsStructuredDecision(superseded, n), Values(nodes));
    AllDisagreementMembers(decisions, decisions, c);
    ValuesMembers(nodes);
    if c in StructuredConflicts(nodes, superseded) {
      var x, y :| x in decisions && y in decisions && Disagree(x, y)
                  && c == Conflict(x.id, y.id, SUBJECT_OUTCOME);
      var j :| j in nodes && nodes[j] == x;
      var k :| k in nodes && nodes[k] == y;
    }
  }

  lemma MaterialMembers(view: View, reachable: set<string>, conflicts: seq<Conflict>, c: Conflict)
    ensures c in MaterialConflicts(view, reachable, conflicts) <==>
            c in conflicts && IsMaterial(view, reachable, c)
  {
  }

  lemma EngagedMeaning(r: Request, id: string)
    requires WellFormed(r)
    ensures Engaged(r, id) <==>
            KernelView(r).Active(id) && id in Ends(AllPaths(KernelView(r), r.goal.targetId))
  {
    ActiveMeaning(r, id);
    ReachableMeaning(r);
  }

  lemma StructuredFound(r: Request, reachable: set<string>) returns (c: Conflict)
    requires WellFormed(r)
    requires reachable == Ends(AllPaths(KernelView(r), r.goal.targetId))
    requires StructuredConflict(r)
    ensures c in StructuredConflicts(KernelView(r).nodes, KernelView(r).superseded)
    ensures IsMaterial(KernelView(r), reachable, c)
  {
    var view := KernelView(r);
    var x, y :| x in r.nodes && y in r.nodes && Contradict(x, y) && Engaged(r, x.id) && Engaged(r, y.id);
    EngagedMeaning(r, x.id);
    EngagedMeaning(r, y.id);
    assert StringLess(x.id, y.id) || StringLess(y.id, x.id) by {
      StringOrder();
    }
    var left, right := if StringLess(x.id, y.id) then x else y, if StringLess(x.id, y.id) then y else x;
    c := Conflict(left.id, right.id, SUBJECT_OUTCOME);
    assert view.nodes[left.id] == left && view.nodes[right.id] == right by {
      NodeMapLookup(r.nodes);
    }
    StructuredIntro(view.nodes, view.superseded, left.id, right.id);
  }

  lemma StructuredIntro(nodes: map<string, Node>, superseded: set<string>, j: string, k: string)
    requires j in nodes && k in nodes
    requires IsStructuredDecision(superseded, nodes[j]) && IsStructuredDecision(superseded, nodes[k])
    requires Disagree(nodes[j], nodes[k])
    ensures Conflict(nodes[j].id, nodes[k].id, SUBJECT_OUTCOME) in StructuredConflicts(nodes, superseded)
  {
    StructuredMembers(nodes, superseded, Conflict(nodes[j].id, nodes[k].id, SUBJECT_OUTCOME));
  }

  lemma StructuredIsConflict(r: Request, reachable: set<string>, c: Conflict)
    requires WellFormed(r)
    requires reachable == Ends(AllPaths(KernelView(r), r.goal.targetId))
    requires c in StructuredConflicts(KernelView(r).nodes, KernelView(r).superseded)
    requires IsMaterial(KernelView(r), reachable, c)
    ensures StructuredConflict(r)
  {
    var view := KernelView(r);
    StructuredMembers(view.nodes, view.superseded, c);
    var j, k :| j in view.nodes && k in view.nodes
                && IsStructuredDecision(view.superseded, view.nodes[j])
                && IsStructuredDecision(view.superseded, view.nodes[k])
                && Disagree(view.nodes[j], view.nodes[k])
                && c == Conflict(view.nodes[j].id, view.nodes[k].id, SUBJECT_OUTCOME);
    EngagedMeaning(r, c.leftNodeId);
    EngagedMeaning(r, c.rightNodeId);
    assert view.nodes[j] in r.nodes && view.nodes[k] in r.nodes by {
      NodeMapLookup(r.nodes);
    }
    assert view.nodes[j].id != view.nodes[k].id by {
      StringOrder();
    }
    assert Contradict(view.nodes[j], view.nodes[k]);
  }

  lemma ConflictsFoundMeaning(r: Request, reachable: set<string>)
    requires WellFormed(r)
    requires reachable == Ends(AllPaths(KernelView(r), r.goal.targetId))
    ensures ConflictsFound(r, KernelView(r), reachable) != [] <==> InConflict(r)
  {
    var view := KernelView(r);
    var structured := StructuredConflicts(view.nodes, view.superseded);
    var found := ConflictsFound(r, view, reachable);
    if found != [] {
      var c := found[0];
      assert c in found;
      MaterialMembers(view, reachable, r.conflicts + structured, c);
      if c in structured {
        StructuredIsConflict(r, reachable, c);
      } else {
        EngagedMeaning(r, c.leftNodeId);
        EngagedMeaning(r, c.rightNodeId);
      }
    }
    if ExplicitConflict(r) {
      var c :| c in r.conflicts && Engaged(r, c.leftNodeId) && Engaged(r, c.rightNodeId);
      EngagedMeaning(r, c.leftNodeId);
      EngagedMeaning(r, c.rightNodeId);
      MaterialMembers(view, reachable, r.conflicts + structured, c);
    }
    if StructuredConflict(r) {
      var c := StructuredFound(r, reachable);
      MaterialMembers(view, reachable, r.conflicts + structured, c);
    }
  }

  // ----- anchors and frontier

  lemma AnchorsMeaning(r: Request)
    requires WellFormed(r)
    ensures AnchorPaths(r.goal, KernelView(r), AllPaths(KernelView(r), r.goal.targetId)) != [] <==>
            AnchorReached(r)
  {
    var view, target := KernelView(r), r.goal.targetId;
    var all := AllPaths(view, target);
    var anchors := AnchorPaths(r.goal, view, all);
    ReachableMeaning(r);
    NodeMapLookup(r.nodes);
    if anchors != [] {
      var p := anchors[0];
      assert p in anchors;
      ActiveMeaning(r, Last(p));
      assert AnchorRecord(r, view.nodes[Last(p)]);
    }
    if AnchorReached(r) {
      var n :| AnchorRecord(r, n) && Reaches(r, n.id);
      ActiveMeaning(r, n.id);
      var p :| p in all && Last(p) == n.id;
      assert p in anchors;
    }
  }

  lemma DeeperOrder()
    ensures WeakOrder(Deeper)
  {
    StringsOrder();
    forall x: Path, y: Path, z: Path | !Deeper(x, y) && !Deeper(y, z)
      ensures !Deeper(x, z)
    {
    }
  }

  lemma DeepestIsLongest(paths: seq<Path>)
    requires paths != []
    ensures forall p :: p in paths ==> |p.edgeIds| <= |DeepestPath(paths).edgeIds|
  {
    DeeperOrder();
    SortHead(Deeper, paths);
  }

  lemma LongPathDeparts(r: Request, p: Path)
    requires WellFormed(r)
    requires SimplePath(KernelView(r), r.goal.targetId, p) && p.edgeIds != []
    ensures Departs(r)
  {
    var e := HopLink(r, p, 0);
    assert p.nodeIds[0] != p.nodeIds[1];
  }

  lemma DepartureIsLong(r: Request) returns (p: Path)
    requires WellFormed(r) && Departs(r)
    ensures SimplePath(KernelView(r), r.goal.targetId, p) && p.edgeIds != []
  {
    var view, target := KernelView(r), r.goal.targetId;
    var e :| Link(r, e) && e.sourceId == target && e.targetId != target;
    RootIsSimple(view, target);
    LinkExtends(r, Root(target), e);
    p := Append(Root(target), e);
  }

  /** Nothing longer than the target itself is enumerated iff the target has no link to
      another node. */
  lemma FrontierMeaning(r: Request)
    requires WellFormed(r)
    ensures DeepestPath(AllPaths(KernelView(r), r.goal.targetId)).edgeIds != [] <==> Departs(r)
  {
    var all := AllPaths(KernelView(r), r.goal.targetId);
    ViewEdgesDistinct(r);
    TraversalExactness(KernelView(r), r.goal.targetId);
    DeepestIsLongest(all);
    if DeepestPath(all).edgeIds != [] {
      LongPathDeparts(r, DeepestPath(all));
    }
    if Departs(r) {
      var p := DepartureIsLong(r);
      assert p in all;
    }
  }

  // ----- the theorem

  /** Each verdict holds exactly when the request says so. */
  lemma VerdictCharacterisation(r: Request)
    requires Evaluation(r).ProofResponse?
    ensures WellFormed(r)
    ensures Evaluation(r).proof.verdict == Conflicted <==> InConflict(r)
    ensures Evaluation(r).proof.verdict == Established <==> !InConflict(r) && AnchorReached(r)
    ensures Evaluation(r).proof.verdict == NotEstablished <==>
            !InConflict(r) && !AnchorReached(r) && !Departs(r)
    ensures Evaluation(r).proof.verdict == Partial <==>
            !InConflict(r) && !AnchorReached(r) && Departs(r)
  {
    EvaluationMeaning(r);
    TraversedMeaning(r);
    ConflictsFoundMeaning(r, Ends(AllPaths(KernelView(r), r.goal.targetId)));
    AnchorsMeaning(r);
    FrontierMeaning(r);
  }
}
