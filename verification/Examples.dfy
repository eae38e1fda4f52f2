/** Requests on which plausible statements about the kernel fail. */
module Examples {
  import opened Wrappers
  import opened Sequences
  import opened Model
  import opened Proof
  import opened Graph
  import opened Traversal
  import opened Evaluator
  import opened Paths
  import opened Meaning
  import opened Verdicts
  import opened Chains
  import opened OrderIrrelevance
  import opened Removal
  import Rules

  const NOWHERE := Origin(Synthetic, "example", None, None)

  function Plain(id: string, kind: NodeKind): Node {
    Node(id, kind, Current, None, None, NOWHERE)
  }

  function Ruling(id: string, outcome: string): Node {
    Node(id, Decision, Current, Some("subject"), Some(outcome), NOWHERE)
  }

  function Points(id: string, source: string, target: string): Edge {
    Edge(id, Documents, source, target, Current, NOWHERE)
  }

  function Ask(nodes: seq<Node>, edges: seq<Edge>): Request {
    Request(1, "request", "snapshot", Goal("t", [Decision, WorkItem]), nodes, edges, [])
  }

  // ----- small requests are always answered

  lemma BudgetStep(w: nat, n: nat, v: nat, m: nat, b: nat, c: nat)
    requires w <= v && 1 <= b <= c && n > 0 && m > 0
    requires b == Budget(w, n - 1) && c == Budget(v, m - 1)
    ensures 1 <= Budget(w, n) <= Budget(v, m)
  {
    var x, y := w * b, v * c;
    ProductMonotone(w, b, v, c);
    assert Budget(w, n) == 1 + x && Budget(v, m) == 1 + y;
  }

  lemma {:induction false} BudgetMonotone(w: nat, n: nat, v: nat, m: nat)
    requires w <= v && n <= m
    ensures 1 <= Budget(w, n) <= Budget(v, m)
    decreases m, n
  {
    if n > 0 {
      BudgetMonotone(w, n - 1, v, m - 1);
      BudgetStep(w, n, v, m, Budget(w, n - 1), Budget(v, m - 1));
    } else if m > 0 {
      BudgetMonotone(v, 0, v, m - 1);
      BudgetStep(v, m, v, m, Budget(v, m - 1), Budget(v, m - 1));
    }
  }

  lemma ProductMonotone(a: nat, b: nat, c: nat, d: nat)
    requires a <= c && b <= d
    ensures a * b <= c * d
  {
    WidthMonotone(a, c, b);
    assert c * b <= c * d by {
      WidthMonotone(b, d, c);
    }
  }

  lemma {:induction false} ExploreBounded(view: View, queue: seq<Path>)
    ensures |Explore(view, queue)| <= Cost(view, queue)
    decreases Cost(view, queue)
  {
    if queue != [] {
      CostDecreases(view, queue);
      ExploreBounded(view, queue[1..] + Successors(view, queue[0]));
    }
  }

  /** The number of path states is bounded by the number of edges alone. */
  lemma SmallRequestAnswered(r: Request)
    requires WellFormed(r)
    requires Budget(|r.edges|, |r.edges|) <= Rules.MAX_PATH_STATES
    ensures Evaluation(r).ProofResponse?
  {
    EvaluationMeaning(r);
    var view := KernelView(r);
    var root := Root(r.goal.targetId);
    ExploreBounded(view, [root]);
    CostSingle(view, root);
    UnvisitedBound(view.edges);
    SubsetCard(Unvisited(view, root), set e | e in view.edges :: e.targetId);
    assert |view.edges| <= |r.edges|;
    BudgetMonotone(|view.edges|, |Unvisited(view, root)|, |r.edges|, |r.edges|);
  }

  lemma {:induction false} UnvisitedBound(edges: seq<Edge>)
    ensures |set e | e in edges :: e.targetId| <= |edges|
  {
    if edges != [] {
      UnvisitedBound(edges[1..]);
      assert (set e | e in edges :: e.targetId)
             == (set e | e in edges[1..] :: e.targetId) + {edges[0].targetId};
    }
  }

  lemma TwoEdgeBudget()
    ensures Budget(2, 2) == 7
  {
    assert Budget(2, 0) == 1;
    assert Budget(2, 1) == 3;
  }

  lemma TwoEdgesAnswered(r: Request)
    requires WellFormed(r) && |r.edges| <= 2
    ensures Evaluation(r).ProofResponse?
  {
    TwoEdgeBudget();
    BudgetMonotone(|r.edges|, |r.edges|, 2, 2);
    SmallRequestAnswered(r);
  }

  // ----- the message of a missing reference depends on the order

  lemma MissingMessageDependsOnOrder() returns (r: Request, s: Request)
    ensures Rearranged(r, s) && Evaluation(r) != Evaluation(s)
  {
    var q := Ask([Plain("t", CodeTarget)], [Points("a", "t", "gone"), Points("b", "t", "gone")]);
    assert Plain("t", CodeTarget) in q.nodes;
    NodeMapKeys(q.nodes);
    assert "gone" !in NodeMap(q.nodes).Keys by {
      assert forall n :: n in q.nodes ==> n.id == "t";
      assert "t" != "gone" by { assert |"t"| != |"gone"|; }
    }
    var ids := NodeMap(q.nodes).Keys;
    assert q.edges[0] in q.edges && q.edges[1] in q.edges;
    assert "a" != "b" by { assert "a"[0] != "b"[0]; }
    assert DanglingEdge(ids, q.edges[0]) && DanglingEdge(ids, q.edges[1]);
    assert TwoDanglingEdges(q, ids);
    r, s := AmbiguousDiffers(q);
    assert multiset(r.nodes) == multiset(s.nodes);
  }

  // ----- withdrawing an edge can settle a conflict

  /** t points at two decisions with different outcomes. */
  function Dispute(): Request {
    Ask([Plain("t", CodeTarget), Ruling("x", "yes"), Ruling("y", "no")],
        [Points("a", "t", "x"), Points("b", "t", "y")])
  }

  lemma DistinctNames()
    ensures "t" != "x" && "t" != "y" && "x" != "y" && "a" != "b" && "yes" != "no"
    ensures "t" != "w" && "t" != "d" && "w" != "d"
  {
    assert "t"[0] != "x"[0] && "t"[0] != "y"[0] && "x"[0] != "y"[0] && "a"[0] != "b"[0];
    assert |"yes"| != |"no"|;
    assert "t"[0] != "w"[0] && "t"[0] != "d"[0] && "w"[0] != "d"[0];
  }

  lemma ReachedByLink(r: Request, id: string)
    ensures Reaches(r, id) ==> id == r.goal.targetId || exists e :: Link(r, e) && e.targetId == id
  {
    forall w | Walk(r, w, id)
      ensures id == r.goal.targetId || exists e :: Link(r, e) && e.targetId == id
    {
      assert w == [] || Link(r, w[|w| - 1]);
    }
  }

  lemma OneHop(r: Request, e: Edge)
    requires Link(r, e) && e.sourceId == r.goal.targetId
    ensures Engaged(r, e.targetId)
  {
    assert [e][..0] == [];
    assert Walk(r, [], e.sourceId);
    assert Walk(r, [e], e.targetId);
  }

  lemma NothingDisplaced(r: Request)
    requires forall e :: e in r.edges ==> e.kind != Supersedes
    requires forall n :: n in r.nodes ==> n.status == Current
    ensures forall n :: ActiveRecord(r, n) <==> n in r.nodes
    ensures forall id :: Active(r, id) <==> HasNode(r, id)
  {
    assert forall n :: n in r.nodes ==> ActiveRecord(r, n);
  }

  lemma DisputeWellFormed()
    ensures WellFormed(Dispute())
  {
    DistinctNames();
    var r := Dispute();
    assert r.nodes[0] in r.nodes && r.nodes[1] in r.nodes && r.nodes[2] in r.nodes;
    assert HasNode(r, "t") && HasNode(r, "x") && HasNode(r, "y");
  }

  lemma SettledWellFormed()
    ensures WellFormed(RemoveEdge(Dispute(), 1))
  {
    DisputeWellFormed();
    RemoveEdgeWithdraws(Dispute(), 1);
    WithdrawnWellFormed(Dispute(), RemoveEdge(Dispute(), 1));
  }

  lemma DisputeInConflict()
    ensures InConflict(Dispute())
  {
    var r := Dispute();
    DistinctNames();
    DisputeWellFormed();
    NothingDisplaced(r);
    assert r.nodes[0] in r.nodes && r.nodes[1] in r.nodes && r.nodes[2] in r.nodes;
    assert r.edges[0] in r.edges && r.edges[1] in r.edges;
    OneHop(r, r.edges[0]);
    OneHop(r, r.edges[1]);
    assert Contradict(r.nodes[1], r.nodes[2]);
  }

  lemma DisputeConflicted()
    ensures Evaluation(Dispute()).ProofResponse? && VerdictOf(Dispute()) == Conflicted
  {
    DisputeWellFormed();
    DisputeInConflict();
    TwoEdgesAnswered(Dispute());
    VerdictCharacterisation(Dispute());
  }

  lemma SettledReach(s: Request)
    requires s == RemoveEdge(Dispute(), 1)
    ensures !Reaches(s, "y")
  {
    DistinctNames();
    assert s.edges == [Points("a", "t", "x")];
    assert forall e :: e in s.edges ==> e.targetId == "x";
    ReachedByLink(s, "y");
  }

  lemma SettledAnchor(s: Request)
    requires s == RemoveEdge(Dispute(), 1) && WellFormed(s)
    ensures AnchorReached(s)
  {
    DistinctNames();
    assert s.edges == [Points("a", "t", "x")];
    assert s.edges[0] in s.edges;
    assert s.nodes[0] in s.nodes && s.nodes[1] in s.nodes;
    NothingDisplaced(s);
    OneHop(s, s.edges[0]);
    assert AnchorRecord(s, s.nodes[1]);
  }

  lemma SettledQuiet(s: Request)
    requires s == RemoveEdge(Dispute(), 1)
    ensures !InConflict(s)
  {
    DistinctNames();
    SettledReach(s);
    forall x, y | x in s.nodes && y in s.nodes && Contradict(x, y)
      ensures x.id == "y" || y.id == "y"
    {
    }
  }

  /** A conflicted answer can become established when evidence is withdrawn. */
  lemma RemovalCanEstablish()
    ensures Evaluation(Dispute()).ProofResponse? && VerdictOf(Dispute()) == Conflicted
    ensures Evaluation(RemoveEdge(Dispute(), 1)).ProofResponse?
    ensures VerdictOf(RemoveEdge(Dispute(), 1)) == Established
  {
    DisputeConflicted();
    SettledWellFormed();
    var s := RemoveEdge(Dispute(), 1);
    TwoEdgesAnswered(s);
    SettledAnchor(s);
    SettledQuiet(s);
    VerdictCharacterisation(s);
  }

  // ----- an edge on every returned chain need not be decisive

  /** t points at a work item, which points at a decision. */
  function Ladder(): Request {
    Ask([Plain("t", CodeTarget), Plain("w", WorkItem), Plain("d", Decision)],
        [Points("a", "t", "w"), Points("b", "w", "d")])
  }

  lemma LadderWellFormed()
    ensures WellFormed(Ladder())
  {
    DistinctNames();
    var r := Ladder();
    assert r.nodes[0] in r.nodes && r.nodes[1] in r.nodes && r.nodes[2] in r.nodes;
    assert HasNode(r, "t") && HasNode(r, "w") && HasNode(r, "d");
  }

  const SHORT: Path := Route(["t", "w"], ["a"])
  const LONG: Path := Route(["t", "w", "d"], ["a", "b"])

  lemma LadderLinks()
    ensures Link(Ladder(), Points("a", "t", "w")) && Link(Ladder(), Points("b", "w", "d"))
    ensures AnchorRecord(Ladder(), Plain("w", WorkItem)) && AnchorRecord(Ladder(), Plain("d", Decision))
  {
    var r := Ladder();
    DistinctNames();
    NothingDisplaced(r);
    assert r.nodes[0] in r.nodes && r.nodes[1] in r.nodes && r.nodes[2] in r.nodes;
    assert r.edges[0] in r.edges && r.edges[1] in r.edges;
  }

  lemma ShortPath(r: Request, e: Edge, n: Node)
    requires WellFormed(r) && Link(r, e) && e.sourceId == r.goal.targetId && e.targetId != e.sourceId
    requires AnchorRecord(r, n) && n.id == e.targetId
    ensures AnchorPath(r, Route([e.sourceId, e.targetId], [e.id]))
  {
    RootIsSimple(KernelView(r), r.goal.targetId);
    LinkExtends(r, Root(r.goal.targetId), e);
    assert Append(Root(r.goal.targetId), e) == Route([e.sourceId, e.targetId], [e.id]);
  }

  lemma LongPath(r: Request, e: Edge, f: Edge, n: Node)
    requires WellFormed(r) && Link(r, e) && e.sourceId == r.goal.targetId && e.targetId != e.sourceId
    requires Link(r, f) && f.sourceId == e.targetId && f.targetId !in [e.sourceId, e.targetId]
    requires AnchorRecord(r, n) && n.id == f.targetId
    ensures AnchorPath(r, Route([e.sourceId, e.targetId, f.targetId], [e.id, f.id]))
  {
    RootIsSimple(KernelView(r), r.goal.targetId);
    LinkExtends(r, Root(r.goal.targetId), e);
    var p := Append(Root(r.goal.targetId), e);
    assert p == Route([e.sourceId, e.targetId], [e.id]);
    LinkExtends(r, p, f);
    assert Append(p, f) == Route([e.sourceId, e.targetId, f.targetId], [e.id, f.id]);
  }

  lemma LadderPaths()
    ensures AnchorPath(Ladder(), SHORT) && AnchorPath(Ladder(), LONG)
  {
    DistinctNames();
    LadderWellFormed();
    LadderLinks();
    ShortPath(Ladder(), Points("a", "t", "w"), Plain("w", WorkItem));
    LongPath(Ladder(), Points("a", "t", "w"), Points("b", "w", "d"), Plain("d", Decision));
  }

  lemma LadderHop(p: Path, i: nat)
    requires AnchorPath(Ladder(), p) && i < |p.edgeIds|
    ensures p.edgeIds[i] == "b" || (p.edgeIds[i] == "a" && p.nodeIds[i] == "t" && p.nodeIds[i + 1] == "w")
  {
    var r := Ladder();
    LadderWellFormed();
    var e := HopLink(r, p, i);
  }

  lemma TargetIsNoAnchor(p: Path)
    requires AnchorPath(Ladder(), p)
    ensures p.edgeIds != []
  {
    DistinctNames();
    assert forall n :: AnchorRecord(Ladder(), n) ==> n.id != "t";
  }

  /** Without the second edge a chain of the ladder could only be the short path. */
  lemma LadderChain(p: Path)
    requires AnchorPath(Ladder(), p) && "b" !in p.edgeIds
    ensures p == SHORT
  {
    DistinctNames();
    assert forall i :: 0 <= i < |p.edgeIds| ==> p.edgeIds[i] in p.edgeIds;
    TargetIsNoAnchor(p);
    LadderHop(p, 0);
    if |p.edgeIds| > 1 {
      LadderHop(p, 1);
    }
    assert p.edgeIds == ["a"] && p.nodeIds == ["t", "w"];
  }

  lemma LadderQuiet()
    ensures !InConflict(Ladder())
  {
    assert forall n :: n in Ladder().nodes ==> n.subjectId.None?;
  }

  lemma LadderEstablished()
    ensures Evaluation(Ladder()).ProofResponse? && VerdictOf(Ladder()) == Established
  {
    LadderWellFormed();
    TwoEdgesAnswered(Ladder());
    LadderPaths();
    AnchorPathExists(Ladder());
    LadderQuiet();
    VerdictCharacterisation(Ladder());
  }

  lemma LongIsLonger()
    ensures Begins(SHORT, LONG) && |LONG.edgeIds| > |SHORT.edgeIds|
  {
  }

  lemma LadderChains()
    requires Evaluation(Ladder()).ProofResponse? && VerdictOf(Ladder()) == Established
    ensures forall c :: c in Evaluation(Ladder()).proof.proofChains ==> "b" in c.edgeIds
  {
    var r := Ladder();
    var chains := Evaluation(r).proof.proofChains;
    var anchors := AnchorsOf(r);
    var routes := Routes(anchors);
    ChainsMirrorRoutes(r);
    LadderPaths();
    LongIsLonger();
    MaximalMembers(anchors, SHORT);
    assert SHORT !in routes;
    forall i | 0 <= i < |routes|
      ensures "b" in chains[i].edgeIds
    {
      assert routes[i] in routes;
      MaximalMembers(anchors, routes[i]);
      if "b" !in routes[i].edgeIds {
        LadderChain(routes[i]);
      }
    }
  }

  /** Every returned chain uses edge b, yet deleting b leaves the answer established. */
  lemma ChainEdgeNotDecisive()
    ensures Evaluation(Ladder()).ProofResponse? && VerdictOf(Ladder()) == Established
    ensures forall c :: c in Evaluation(Ladder()).proof.proofChains ==> "b" in c.edgeIds
    ensures Evaluation(RemoveEdge(Ladder(), 1)).ProofResponse?
    ensures VerdictOf(RemoveEdge(Ladder(), 1)) == Established
  {
    LadderEstablished();
    LadderChains();
    LadderPaths();
    LadderWellFormed();
    LadderSurvives();
  }

  /** A path to an anchor that avoids an edge keeps the answer established without it. */
  lemma AvoidingPathEstablishes(r: Request, i: nat, p: Path)
    requires Evaluation(r).ProofResponse? && VerdictOf(r) == Established && WellFormed(r) && AnchorPath(r, p)
    requires i < |r.edges| && r.edges[i].kind != Supersedes && r.edges[i].id !in p.edgeIds
    ensures Evaluation(RemoveEdge(r, i)).ProofResponse?
    ensures VerdictOf(RemoveEdge(r, i)) == Established
  {
    RemoveEdgeWithdraws(r, i);
    PathUsesEdges(r, p);
    DecisiveRemoval(r, RemoveEdge(r, i));
    assert AnchorSurvives(r, RemoveEdge(r, i).edges, p);
  }

  lemma LadderEdges()
    ensures Ladder().edges[1].id == "b" && Ladder().edges[1].kind == Documents && "b" !in SHORT.edgeIds
  {
    DistinctNames();
    assert SHORT.edgeIds == ["a"];
  }

  lemma LadderSurvives()
    requires WellFormed(Ladder()) && AnchorPath(Ladder(), SHORT)
    requires Evaluation(Ladder()).ProofResponse? && VerdictOf(Ladder()) == Established
    ensures Evaluation(RemoveEdge(Ladder(), 1)).ProofResponse?
    ensures VerdictOf(RemoveEdge(Ladder(), 1)) == Established
  {
    LadderEdges();
    AvoidingPathEstablishes(Ladder(), 1, SHORT);
  }
}
