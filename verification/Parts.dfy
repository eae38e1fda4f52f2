/** A request over part of the evidence of another: which paths and conflicts the two share, and
    exactly when they are answered alike. */
module Parts {
  import opened Wrappers
  import opened Model
  import opened Proof
  import opened Traversal
  import opened Evaluator
  import opened Paths
  import opened Meaning
  import opened Verdicts
  import opened Chains
  import opened Removal
  import opened Answers
  import Rules

  /** `s` asks the question of `r` over some of its records, edges and conflicts. */
  ghost predicate PartOf(r: Request, s: Request) {
    && WellFormed(r) && WellFormed(s)
    && s == r.(nodes := s.nodes, edges := s.edges, conflicts := s.conflicts)
    && (forall n :: n in s.nodes ==> n in r.nodes)
    && (forall e :: e in s.edges ==> e in r.edges)
    && (forall c :: c in s.conflicts ==> c in r.conflicts)
  }

  lemma SameRecord(nodes: seq<Node>, x: Node, y: Node)
    requires DistinctNodeIds(nodes) && x in nodes && y in nodes && x.id == y.id
    ensures x == y
  {
    var i :| 0 <= i < |nodes| && nodes[i] == x;
    var j :| 0 <= j < |nodes| && nodes[j] == y;
  }

  lemma PartAsksTheSame(r: Request, s: Request)
    requires PartOf(r, s)
    ensures SameQuestion(r, s)
  {
    forall x, y | x in r.nodes && y in s.nodes && x.id == y.id
      ensures x == y
    {
      SameRecord(r.nodes, x, y);
    }
  }

  // ----- activity and links

  lemma PartDisplaced(r: Request, s: Request, id: string)
    requires PartOf(r, s) && Displaced(s, id)
    ensures Displaced(r, id)
  {
    var e, n :|
      && e in s.edges && e.status == Current && e.kind == Supersedes && e.targetId == id
      && n in s.nodes && n.id == e.sourceId && n.status == Current;
    assert e in r.edges && n in r.nodes;
  }

  lemma PartRecord(r: Request, s: Request, n: Node)
    requires PartOf(r, s)
    ensures ActiveRecord(r, n) && HasNode(s, n.id) ==> ActiveRecord(s, n)
    ensures ActiveRecord(s, n) && !Displaced(r, n.id) ==> ActiveRecord(r, n)
  {
    if ActiveRecord(r, n) && HasNode(s, n.id) {
      var m :| m in s.nodes && m.id == n.id;
      SameRecord(r.nodes, m, n);
      if Displaced(s, n.id) {
        PartDisplaced(r, s, n.id);
      }
    }
  }

  lemma PartActive(r: Request, s: Request, id: string)
    requires PartOf(r, s)
    ensures Active(r, id) && HasNode(s, id) ==> Active(s, id)
    ensures Active(s, id) && !Displaced(r, id) ==> Active(r, id)
    ensures Active(r, id) ==> !Displaced(r, id)
  {
    if Active(r, id) && HasNode(s, id) {
      var n :| ActiveRecord(r, n) && n.id == id;
      PartRecord(r, s, n);
    }
    if Active(s, id) && !Displaced(r, id) {
      var n :| ActiveRecord(s, n) && n.id == id;
      PartRecord(r, s, n);
    }
  }

  lemma PartLink(r: Request, s: Request, e: Edge)
    requires PartOf(r, s)
    ensures Link(r, e) && e in s.edges ==> Link(s, e)
    ensures Link(s, e) && !Displaced(r, e.sourceId) && !Displaced(r, e.targetId) ==> Link(r, e)
  {
    PartActive(r, s, e.sourceId);
    PartActive(r, s, e.targetId);
  }

  // ----- paths

  /** No record of the path is superseded. */
  ghost predicate Undisplaced(r: Request, p: Path) {
    forall id :: id in p.nodeIds ==> !Displaced(r, id)
  }

  /** A path of the part that supersession in the whole leaves standing. */
  ghost predicate Stands(r: Request, p: Path) {
    p.edgeIds == [] || Undisplaced(r, p)
  }

  lemma PathIsUndisplaced(r: Request, p: Path)
    requires WellFormed(r) && SimplePath(KernelView(r), r.goal.targetId, p)
    ensures Stands(r, p)
    ensures Active(r, Last(p)) ==> Undisplaced(r, p)
  {
    if p.edgeIds != [] {
      forall id | id in p.nodeIds
        ensures !Displaced(r, id)
      {
        var k :| 0 <= k < |p.nodeIds| && p.nodeIds[k] == id;
        PathActive(r, p, k);
      }
    }
  }

  lemma StandingStep(r: Request, s: Request, p: Path, i: nat)
    requires PartOf(r, s) && SimplePath(KernelView(s), s.goal.targetId, p) && Undisplaced(r, p) && i < |p.edgeIds|
    ensures Step(KernelView(r), p.nodeIds[i], p.edgeIds[i], p.nodeIds[i + 1])
    ensures exists e :: e in s.edges && e.id == p.edgeIds[i]
  {
    var e := HopLink(s, p, i);
    PartLink(r, s, e);
    LinkIsStep(r, e);
  }

  lemma KeptStep(r: Request, s: Request, p: Path, i: nat)
    requires PartOf(r, s) && SimplePath(KernelView(r), r.goal.targetId, p) && UsesOnly(s.edges, p) && i < |p.edgeIds|
    ensures Step(KernelView(s), p.nodeIds[i], p.edgeIds[i], p.nodeIds[i + 1])
  {
    var e := HopLink(r, p, i);
    assert p.edgeIds[i] in p.edgeIds;
    var f :| f in s.edges && f.id == e.id;
    SameIdSameEdge(r.edges, e, f);
    PartLink(r, s, e);
    LinkIsStep(s, e);
  }

  /** What the two have in common: the paths of the part that stand are the paths of the whole
      that use no other edge. */
  lemma PathsOfPart(r: Request, s: Request, p: Path)
    requires PartOf(r, s)
    ensures SimplePath(KernelView(s), r.goal.targetId, p) && Stands(r, p) <==>
            SimplePath(KernelView(r), r.goal.targetId, p) && UsesOnly(s.edges, p)
  {
    if SimplePath(KernelView(s), r.goal.targetId, p) && Stands(r, p) {
      forall i | 0 <= i < |p.edgeIds|
        ensures Step(KernelView(r), p.nodeIds[i], p.edgeIds[i], p.nodeIds[i + 1])
        ensures exists e :: e in s.edges && e.id == p.edgeIds[i]
      {
        StandingStep(r, s, p, i);
      }
    }
    if SimplePath(KernelView(r), r.goal.targetId, p) && UsesOnly(s.edges, p) {
      forall i | 0 <= i < |p.edgeIds|
        ensures Step(KernelView(s), p.nodeIds[i], p.edgeIds[i], p.nodeIds[i + 1])
      {
        KeptStep(r, s, p, i);
      }
      PathIsUndisplaced(r, p);
    }
  }

  lemma PathEndsInPart(s: Request, p: Path)
    requires WellFormed(s) && SimplePath(KernelView(s), s.goal.targetId, p)
    ensures HasNode(s, Last(p))
  {
    if p.edgeIds != [] {
      PathActive(s, p, |p.edgeIds|);
    }
  }

  lemma AnchorsOfPart(r: Request, s: Request, p: Path)
    requires PartOf(r, s)
    ensures AnchorPath(s, p) && Undisplaced(r, p) <==> AnchorPath(r, p) && UsesOnly(s.edges, p)
  {
    PathsOfPart(r, s, p);
    if AnchorPath(s, p) && Undisplaced(r, p) {
      var n :| AnchorRecord(s, n) && n.id == Last(p);
      PartRecord(r, s, n);
      assert AnchorRecord(r, n);
    }
    if AnchorPath(r, p) && UsesOnly(s.edges, p) {
      var n :| AnchorRecord(r, n) && n.id == Last(p);
      PathEndsInPart(s, p);
      PartRecord(r, s, n);
      assert AnchorRecord(s, n);
      PathIsUndisplaced(r, p);
    }
  }

  // ----- reached records and conflicts

  /** Reached in the part by a path that supersession in the whole leaves standing. */
  ghost predicate StandsAt(r: Request, s: Request, id: string) {
    && Active(s, id)
    && exists p: Path :: SimplePath(KernelView(s), r.goal.targetId, p) && Undisplaced(r, p) && Last(p) == id
  }

  lemma EngagedByPath(r: Request, id: string)
    requires WellFormed(r)
    ensures Engaged(r, id) <==>
            Active(r, id) && exists p: Path :: SimplePath(KernelView(r), r.goal.targetId, p) && Last(p) == id
  {
    if Engaged(r, id) {
      var w :| Walk(r, w, id);
      var p := WalkToPath(r, w, id);
    }
    if p: Path :| SimplePath(KernelView(r), r.goal.targetId, p) && Last(p) == id {
      var w := PathToWalk(r, p);
    }
  }

  lemma ReachedInPart(r: Request, s: Request, id: string)
    requires PartOf(r, s)
    ensures StandsAt(r, s, id) <==> Active(r, id) && StillReached(r, s.edges, id)
    ensures StandsAt(r, s, id) ==> Engaged(r, id) && Engaged(s, id)
  {
    EngagedByPath(r, id);
    EngagedByPath(s, id);
    PartActive(r, s, id);
    if StandsAt(r, s, id) {
      var p: Path :| SimplePath(KernelView(s), r.goal.targetId, p) && Undisplaced(r, p) && Last(p) == id;
      PathsOfPart(r, s, p);
    }
    if Active(r, id) && StillReached(r, s.edges, id) {
      var p: Path :| SimplePath(KernelView(r), r.goal.targetId, p) && UsesOnly(s.edges, p) && Last(p) == id;
      PathsOfPart(r, s, p);
      PathEndsInPart(s, p);
      PathIsUndisplaced(r, p);
    }
  }

  lemma DerivedInPart(r: Request, s: Request, c: Conflict)
    requires PartOf(r, s) && HasNode(s, c.leftNodeId) && HasNode(s, c.rightNodeId)
    ensures Derived(s, c) <==> Derived(r, c)
  {
    if Derived(r, c) {
      var x, y :| x in r.nodes && y in r.nodes && Contradict(x, y)
                  && x.id == c.leftNodeId && y.id == c.rightNodeId;
      var m :| m in s.nodes && m.id == x.id;
      var n :| n in s.nodes && n.id == y.id;
      SameRecord(r.nodes, m, x);
      SameRecord(r.nodes, n, y);
    }
  }

  /** A conflict of the part is one of the whole as soon as its sides are engaged there. */
  lemma ConflictOfPart(r: Request, s: Request, c: Conflict)
    requires PartOf(r, s) && ConflictHolds(s, c)
    ensures ConflictHolds(r, c) <==> Engaged(r, c.leftNodeId) && Engaged(r, c.rightNodeId)
  {
    DerivedInPart(r, s, c);
  }

  // ----- the exact condition

  ghost predicate NoConflictLost(r: Request, s: Request) {
    forall c :: ConflictHolds(r, c) ==> ConflictHolds(s, c)
  }

  ghost predicate NoAnchorLost(r: Request, s: Request) {
    forall p: Path :: AnchorPath(r, p) ==> UsesOnly(s.edges, p)
  }

  /** The paths of the part that stand, and the paths of the whole that the part does not have. */
  ghost function StandingPaths(r: Request, s: Request): set<Path> {
    set p | p in AllPaths(KernelView(s), r.goal.targetId) && Stands(r, p)
  }

  ghost function MissingPaths(r: Request, s: Request): set<Path> {
    set p | p in AllPaths(KernelView(r), r.goal.targetId) && !UsesOnly(s.edges, p)
  }

  ghost predicate WithinCap(r: Request, s: Request) {
    |StandingPaths(r, s)| + |MissingPaths(r, s)| <= Rules.MAX_PATH_STATES
  }

  /** No record on a returned chain is superseded in the whole. */
  ghost predicate ChainsStand(r: Request, proof: ProofResult) {
    forall c, id :: c in proof.proofChains && id in c.nodeIds ==> !Displaced(r, id)
  }

  ghost predicate SidesEngaged(r: Request, proof: ProofResult) {
    forall c :: c in proof.conflicts ==> Engaged(r, c.leftNodeId) && Engaged(r, c.rightNodeId)
  }

  /** A deepest path of the whole ends where the gap is reported. */
  ghost predicate GapStands(r: Request, proof: ProofResult) {
    exists p: Path, gap :: Frontier(r, p) && gap in proof.gaps && gap.fromNodeId == Some(Last(p))
  }

  /** Nothing is lost that decides the verdict, and what the part returned holds in the whole. */
  ghost predicate AnswerStands(r: Request, s: Request, proof: ProofResult) {
    && NoConflictLost(r, s)
    && match proof.verdict
       case Conflicted => SidesEngaged(r, proof)
       case Established => NoAnchorLost(r, s) && ChainsStand(r, proof)
       case _ => NoAnchorLost(r, s) && GapStands(r, proof)
  }

  lemma PathCount(r: Request, s: Request)
    requires PartOf(r, s)
    ensures |AllPaths(KernelView(r), r.goal.targetId)| == |StandingPaths(r, s)| + |MissingPaths(r, s)|
  {
    var all := StandingPaths(r, s) + MissingPaths(r, s);
    ViewEdgesDistinct(r);
    ViewEdgesDistinct(s);
    TraversalExactness(KernelView(r), r.goal.targetId);
    TraversalExactness(KernelView(s), r.goal.targetId);
    forall p: Path
      ensures p in all <==> SimplePath(KernelView(r), r.goal.targetId, p)
      ensures !(p in StandingPaths(r, s) && p in MissingPaths(r, s))
    {
      PathsOfPart(r, s, p);
    }
    SimplePathCount(KernelView(r), r.goal.targetId, all);
  }

  lemma PartRefused(r: Request, s: Request)
    requires PartOf(r, s)
    ensures Evaluation(r).ProofResponse? <==> WithinCap(r, s)
  {
    EvaluationMeaning(r);
    PathCount(r, s);
  }

  lemma ConflictsOfParts(r: Request, s: Request, listed: seq<Conflict>)
    requires PartOf(r, s) && forall c :: c in listed <==> ConflictHolds(s, c)
    ensures SameConflicts(r, s) <==>
            && NoConflictLost(r, s)
            && forall c :: c in listed ==> Engaged(r, c.leftNodeId) && Engaged(r, c.rightNodeId)
  {
    forall c | ConflictHolds(s, c)
      ensures ConflictHolds(r, c) <==> Engaged(r, c.leftNodeId) && Engaged(r, c.rightNodeId)
    {
      ConflictOfPart(r, s, c);
    }
  }

  ghost predicate OnChains(proof: ProofResult, id: string) {
    exists c :: c in proof.proofChains && id in c.nodeIds
  }

  ghost predicate OnAnchorPath(s: Request, id: string) {
    exists p: Path :: AnchorPath(s, p) && id in p.nodeIds
  }

  /** The records on the chains are the records on paths to anchors. */
  lemma ChainRecords(s: Request, id: string)
    requires Evaluation(s).ProofResponse? && VerdictOf(s) == Established
    ensures OnChains(Evaluation(s).proof, id) <==> OnAnchorPath(s, id)
  {
    EstablishedAnchors(s);
    RouteRecords(AnchorsOf(s), id);
  }

  lemma RouteRecords(anchors: seq<Path>, id: string)
    requires forall x :: x in anchors ==> |x.nodeIds| == |x.edgeIds| + 1
    ensures OnChains(EstablishedProof(anchors), id) <==> exists p :: p in anchors && id in p.nodeIds
  {
    var chains, routes := EstablishedProof(anchors).proofChains, Routes(anchors);
    assert forall i :: 0 <= i < |chains| ==> chains[i] == ChainOf(routes[i]);
    if OnChains(EstablishedProof(anchors), id) {
      var c :| c in chains && id in c.nodeIds;
      var i :| 0 <= i < |chains| && chains[i] == c;
      assert routes[i] in routes;
    }
    if p :| p in anchors && id in p.nodeIds {
      var q := CoveringRoute(anchors, p);
      var i :| 0 <= i < |routes| && routes[i] == q;
      assert chains[i] in chains;
    }
  }

  lemma AnchorsOfParts(r: Request, s: Request)
    requires PartOf(r, s)
    ensures SameAnchors(r, s) <==>
            NoAnchorLost(r, s) && forall p: Path :: AnchorPath(s, p) ==> Undisplaced(r, p)
  {
    forall p: Path
      ensures AnchorPath(s, p) && Undisplaced(r, p) <==> AnchorPath(r, p) && UsesOnly(s.edges, p)
      ensures AnchorPath(s, p) ==> UsesOnly(s.edges, p)
      ensures AnchorPath(r, p) ==> Undisplaced(r, p)
    {
      AnchorsOfPart(r, s, p);
      if AnchorPath(s, p) {
        PathUsesEdges(s, p);
      }
      if AnchorPath(r, p) {
        PathIsUndisplaced(r, p);
      }
    }
  }

  lemma StandingRecords(r: Request, s: Request, proof: ProofResult)
    requires forall id :: OnChains(proof, id) <==> OnAnchorPath(s, id)
    ensures ChainsStand(r, proof) <==> forall p: Path :: AnchorPath(s, p) ==> Undisplaced(r, p)
  {
    if ChainsStand(r, proof) {
      forall p: Path, id | AnchorPath(s, p) && id in p.nodeIds
        ensures !Displaced(r, id)
      {
        assert OnChains(proof, id);
      }
    }
    if forall p: Path :: AnchorPath(s, p) ==> Undisplaced(r, p) {
      forall c, id | c in proof.proofChains && id in c.nodeIds
        ensures !Displaced(r, id)
      {
        assert OnAnchorPath(s, id);
      }
    }
  }

  lemma ChainsStandMeaning(r: Request, s: Request)
    requires Evaluation(s).ProofResponse? && VerdictOf(s) == Established
    ensures ChainsStand(r, Evaluation(s).proof) <==> forall p: Path :: AnchorPath(s, p) ==> Undisplaced(r, p)
  {
    forall id
      ensures OnChains(Evaluation(s).proof, id) <==> OnAnchorPath(s, id)
    {
      ChainRecords(s, id);
    }
    StandingRecords(r, s, Evaluation(s).proof);
  }

  lemma GapStandsMeaning(r: Request, s: Request)
    requires Incomplete(s)
    ensures GapStands(r, Evaluation(s).proof) <==> SameFrontier(r, s)
  {
    var q, m := NamedGap(s);
    GapAtFrontier(r, s, Evaluation(s).proof, q, m);
  }

  lemma GapAtFrontier(r: Request, s: Request, proof: ProofResult, q: Path, m: Node)
    requires Frontier(s, q) && NamesGap(proof, q, m)
    ensures GapStands(r, proof) <==> SameFrontier(r, s)
  {
    assert Rules.GapFor(m).fromNodeId == Some(Last(q));
    assert Rules.GapFor(m) in proof.gaps;
    if SameFrontier(r, s) {
      var a: Path, b: Path :| Frontier(s, a) && Frontier(r, b) && Last(a) == Last(b);
      FrontierEnd(s, q, a);
    }
  }

  // ----- the theorem

  lemma ConflictedStands(r: Request, s: Request, proof: ProofResult)
    requires PartOf(r, s) && proof.verdict == Conflicted
    requires forall c :: c in proof.conflicts <==> ConflictHolds(s, c)
    ensures AnswersAgree(Conflicted, r, s) <==> AnswerStands(r, s, proof)
  {
    ConflictsOfParts(r, s, proof.conflicts);
  }

  lemma EstablishedStands(r: Request, s: Request, proof: ProofResult)
    requires PartOf(r, s) && proof.verdict == Established && forall c :: !ConflictHolds(s, c)
    requires ChainsStand(r, proof) <==> forall p: Path :: AnchorPath(s, p) ==> Undisplaced(r, p)
    ensures AnswersAgree(Established, r, s) <==> AnswerStands(r, s, proof)
  {
    AnchorsOfParts(r, s);
  }

  lemma NoAnchorGained(r: Request, s: Request)
    requires PartOf(r, s) && forall p: Path :: !AnchorPath(s, p)
    ensures (forall p: Path :: !AnchorPath(r, p)) <==> NoAnchorLost(r, s)
  {
    forall p: Path | AnchorPath(r, p) && UsesOnly(s.edges, p)
      ensures false
    {
      AnchorsOfPart(r, s, p);
    }
  }

  lemma IncompleteStands(r: Request, s: Request, proof: ProofResult)
    requires PartOf(r, s) && proof.verdict in {Partial, NotEstablished}
    requires (forall c :: !ConflictHolds(s, c)) && forall p: Path :: !AnchorPath(s, p)
    requires GapStands(r, proof) <==> SameFrontier(r, s)
    ensures AnswersAgree(proof.verdict, r, s) <==> AnswerStands(r, s, proof)
  {
    NoAnchorGained(r, s);
  }

  lemma ListedConflicts(s: Request)
    requires Evaluation(s).ProofResponse? && VerdictOf(s) == Conflicted
    ensures forall c :: c in Evaluation(s).proof.conflicts <==> ConflictHolds(s, c)
  {
    ConflictsReported(s);
  }

  lemma NoConflicts(s: Request)
    requires Evaluation(s).ProofResponse? && VerdictOf(s) != Conflicted
    ensures forall c :: !ConflictHolds(s, c)
    ensures Incomplete(s) ==> forall p: Path :: !AnchorPath(s, p)
  {
    VerdictByPaths(s);
  }

  lemma AnswerStandsMeaning(r: Request, s: Request)
    requires PartOf(r, s) && Evaluation(s).ProofResponse?
    ensures AnswersAgree(VerdictOf(s), r, s) <==> AnswerStands(r, s, Evaluation(s).proof)
  {
    if VerdictOf(s) == Conflicted {
      ListedConflicts(s);
      ConflictedStands(r, s, Evaluation(s).proof);
    } else if VerdictOf(s) == Established {
      NoConflicts(s);
      ChainsStandMeaning(r, s);
      EstablishedStands(r, s, Evaluation(s).proof);
    } else {
      NoConflicts(s);
      GapStandsMeaning(r, s);
      IncompleteStands(r, s, Evaluation(s).proof);
    }
  }

  /** The whole is answered like the part exactly when both are refused, or both answered and the
      answer of the part stands in the whole. */
  lemma PartAnswersExactly(r: Request, s: Request)
    requires PartOf(r, s)
    ensures Evaluation(s) == Evaluation(r) <==>
            if Evaluation(s).ProofResponse? then WithinCap(r, s) && AnswerStands(r, s, Evaluation(s).proof)
            else !WithinCap(r, s)
  {
    PartAsksTheSame(r, s);
    ResponsesAgree(r, s);
    PartRefused(r, s);
    if Evaluation(s).ProofResponse? {
      AnswerStandsMeaning(r, s);
    }
  }
}
