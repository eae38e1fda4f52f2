/** What an answered proof contains: canonical, lossless and independently checkable
    chains; exactly the material conflicts; the frontier of an incomplete proof. */
module Chains {
  import opened Wrappers
  import opened Sequences
  import opened Ordering
  import opened Model
  import opened Proof
  import opened Traversal
  import opened Evaluator
  import opened Paths
  import opened Meaning
  import opened Verdicts
  import Rules

  /** A simple path along links of the request that ends at an anchor. */
  ghost predicate AnchorPath(r: Request, p: Path) {
    && SimplePath(KernelView(r), r.goal.targetId, p)
    && exists n :: AnchorRecord(r, n) && n.id == Last(p)
  }

  // ----- maximality

  lemma ContinuesMeaning(p: Path, q: Path)
    ensures Continues(p, q) <==> Begins(p, q) && |q.edgeIds| > |p.edgeIds|
  {
    IsPrefixMeaning(p.nodeIds, q.nodeIds);
    IsPrefixMeaning(p.edgeIds, q.edgeIds);
  }

  lemma MaximalMembers(paths: seq<Path>, p: Path)
    ensures p in MaximalPaths(paths) <==>
            p in paths && forall q :: q in paths && Begins(p, q) ==> |q.edgeIds| <= |p.edgeIds|
  {
    forall q: Path
      ensures Continues(p, q) <==> Begins(p, q) && |q.edgeIds| > |p.edgeIds|
    {
      ContinuesMeaning(p, q);
    }
    assert IsMaximal(paths, p) <==> forall q :: q in paths ==> !Continues(p, q);
  }

  /** Following continuations ends at a maximal path. */
  lemma {:induction false} EveryPathIsCovered(paths: seq<Path>, bound: nat, p: Path) returns (q: Path)
    requires p in paths
    requires forall x :: x in paths ==> |x.edgeIds| <= bound
    ensures q in MaximalPaths(paths) && Begins(p, q)
    decreases bound - |p.edgeIds|
  {
    MaximalMembers(paths, p);
    if p in MaximalPaths(paths) {
      q := p;
    } else {
      var x :| x in paths && Begins(p, x) && |x.edgeIds| > |p.edgeIds|;
      q := EveryPathIsCovered(paths, bound, x);
    }
  }

  lemma {:induction false} LengthBound(paths: seq<Path>) returns (bound: nat)
    ensures forall x :: x in paths ==> |x.edgeIds| <= bound
  {
    if paths == [] {
      bound := 0;
    } else {
      var rest := LengthBound(paths[1..]);
      bound := if rest < |paths[0].edgeIds| then |paths[0].edgeIds| else rest;
      assert forall x :: x in paths ==> x == paths[0] || x in paths[1..];
    }
  }

  // ----- established proofs

  function RouteOf(chain: ProofChain): RawPath {
    Route(chain.nodeIds, chain.edgeIds)
  }

  function AnchorsOf(r: Request): seq<Path> {
    Reverse(AnchorPaths(r.goal, KernelView(r), AllPaths(KernelView(r), r.goal.targetId)))
  }

  /** The canonical routes through a list of anchor paths. */
  function Routes(anchors: seq<Path>): seq<Path> {
    SortUnique(PathLess, MaximalPaths(anchors))
  }

  lemma ConcludeEstablished(conflicts: seq<Conflict>, view: View, t: Traversal)
    requires t.paths != [] && forall p :: p in t.paths ==> Last(p) in view.nodes
    requires Conclude(conflicts, view, t).verdict == Established
    ensures Conclude(conflicts, view, t) == EstablishedProof(t.anchors)
    ensures t.anchors != []
  {
  }

  /** The chains of an established proof are the routes through its anchor paths. */
  lemma EstablishedRoutes(r: Request)
    requires Evaluation(r).ProofResponse? && Evaluation(r).proof.verdict == Established
    ensures WellFormed(r) && AnchorsOf(r) != []
    ensures Evaluation(r).proof == EstablishedProof(AnchorsOf(r))
  {
    EvaluationMeaning(r);
    TraversedMeaning(r);
    var view := KernelView(r);
    var t := Traversed(r.goal, view).value;
    ConcludeEstablished(ConflictsFound(r, view, t.reachable), view, t);
  }

  lemma AnchorPathMembers(r: Request, p: Path)
    requires WellFormed(r)
    ensures p in AnchorsOf(r) <==> AnchorPath(r, p)
  {
    var view := KernelView(r);
    var all := AllPaths(view, r.goal.targetId);
    var anchors := AnchorPaths(r.goal, view, all);
    ReverseMembers(anchors, p);
    ViewEdgesDistinct(r);
    TraversalExactness(view, r.goal.targetId);
    ActiveMeaning(r, Last(p));
    NodeMapLookup(r.nodes);
    if AnchorPath(r, p) {
      var n :| AnchorRecord(r, n) && n.id == Last(p);
      assert view.nodes[Last(p)] == n;
    }
    if p in anchors {
      assert AnchorRecord(r, view.nodes[Last(p)]);
    }
  }

  lemma ReverseMembers<T(!new)>(s: seq<T>, x: T)
    ensures x in Reverse(s) <==> x in s
  {
    var t := Reverse(s);
    if x in s {
      var i :| 0 <= i < |s| && s[i] == x;
      assert t[|s| - 1 - i] == x;
    }
  }

  /** A chain that can be checked against the request without trusting the traversal. */
  ghost predicate ChainChecks(r: Request, c: ProofChain) {
    && |c.nodeIds| == |c.edgeIds| + 1
    && c.nodeIds[0] == r.goal.targetId
    && Distinct(c.nodeIds)
    && (forall i :: 0 <= i < |c.edgeIds| ==> Hop(r, c.nodeIds[i], c.edgeIds[i], c.nodeIds[i + 1]))
    && (exists n :: AnchorRecord(r, n) && n.id == c.nodeIds[|c.nodeIds| - 1])
    && c.ruleIds == ["edge.current", "path.admissible", "anchor.current"]
  }

  ghost predicate Hop(r: Request, source: string, edgeId: string, target: string) {
    exists e :: Link(r, e) && e.id == edgeId && e.sourceId == source && e.targetId == target
  }

  lemma AnchorPathChecks(r: Request, p: Path)
    requires WellFormed(r) && AnchorPath(r, p)
    ensures ChainChecks(r, ChainOf(p))
  {
    var c := ChainOf(p);
    forall i | 0 <= i < |c.edgeIds|
      ensures Hop(r, c.nodeIds[i], c.edgeIds[i], c.nodeIds[i + 1])
    {
      var e := HopLink(r, p, i);
    }
  }

  /** Routes are strictly increasing, none continues another, and every path is covered. */
  lemma RoutesCanonical(anchors: seq<Path>)
    requires forall p :: p in anchors ==> |p.nodeIds| == |p.edgeIds| + 1
    ensures StrictlySorted(PathLess, Routes(anchors))
    ensures forall p :: p in Routes(anchors) ==> p in anchors
    ensures forall i, j :: 0 <= i < |Routes(anchors)| && 0 <= j < |Routes(anchors)| && i != j ==>
              !Begins(Routes(anchors)[i], Routes(anchors)[j])
    ensures forall p :: p in anchors ==> exists q :: q in Routes(anchors) && Begins(p, q)
  {
    var routes := Routes(anchors);
    PathOrder();
    SortUniqueSorted(PathLess, MaximalPaths(anchors));
    forall i, j | 0 <= i < |routes| && 0 <= j < |routes| && i != j
      ensures !Begins(routes[i], routes[j])
    {
      assert routes[i] in routes && routes[j] in routes;
      assert PathLess(routes[i], routes[j]) || PathLess(routes[j], routes[i]);
      MaximalMembers(anchors, routes[i]);
      MaximalMembers(anchors, routes[j]);
      NoChainContinues(anchors, routes[i], routes[j]);
    }
    var bound := LengthBound(anchors);
    forall p | p in anchors
      ensures exists q :: q in routes && Begins(p, q)
    {
      var q := EveryPathIsCovered(anchors, bound, p);
    }
  }

  lemma ChainsMirrorRoutes(r: Request)
    requires Evaluation(r).ProofResponse? && Evaluation(r).proof.verdict == Established
    ensures WellFormed(r) && AnchorsOf(r) != []
    ensures forall p :: p in AnchorsOf(r) <==> AnchorPath(r, p)
    ensures |Evaluation(r).proof.proofChains| == |Routes(AnchorsOf(r))|
    ensures forall i :: 0 <= i < |Routes(AnchorsOf(r))| ==>
              Evaluation(r).proof.proofChains[i] == ChainOf(Routes(AnchorsOf(r))[i])
  {
    EstablishedRoutes(r);
    forall p: Path
      ensures p in AnchorsOf(r) <==> AnchorPath(r, p)
    {
      AnchorPathMembers(r, p);
    }
  }

  /** Strictly increasing in the canonical order, and none continues another. */
  ghost predicate Canonical(chains: seq<ProofChain>) {
    && (forall i :: 0 <= i < |chains| ==> chains[i].nodeIds != [])
    && (forall i, j :: 0 <= i < j < |chains| ==> PathLess(RouteOf(chains[i]), RouteOf(chains[j])))
    && (forall i, j :: 0 <= i < |chains| && 0 <= j < |chains| && i != j ==>
          !Begins(RouteOf(chains[i]), RouteOf(chains[j])))
  }

  lemma ChainsOfRoutes(routes: seq<Path>, chains: seq<ProofChain>)
    requires |chains| == |routes| && forall i :: 0 <= i < |routes| ==> chains[i] == ChainOf(routes[i])
    requires StrictlySorted(PathLess, routes)
    requires forall i, j :: 0 <= i < |routes| && 0 <= j < |routes| && i != j ==> !Begins(routes[i], routes[j])
    ensures Canonical(chains)
    ensures forall q :: q in routes ==> exists c :: c in chains && RouteOf(c) == q
    ensures forall c :: c in chains ==> RouteOf(c) in routes && c == ChainOf(RouteOf(c))
  {
    assert forall i :: 0 <= i < |routes| ==> RouteOf(chains[i]) == routes[i];
    forall q | q in routes
      ensures exists c :: c in chains && RouteOf(c) == q
    {
      var i :| 0 <= i < |routes| && routes[i] == q;
      assert chains[i] in chains;
    }
  }

  /** The chains of an established proof are canonical and independently checkable, and every
      path to an anchor begins one of them. */
  lemma CanonicalChains(r: Request)
    requires Evaluation(r).ProofResponse? && Evaluation(r).proof.verdict == Established
    ensures Canonical(Evaluation(r).proof.proofChains)
    ensures forall c :: c in Evaluation(r).proof.proofChains ==> ChainChecks(r, c)
    ensures forall p: Path :: AnchorPath(r, p) ==>
              exists c :: c in Evaluation(r).proof.proofChains && Begins(p, RouteOf(c))
    ensures Evaluation(r).proof.proofChains != []
  {
    ChainsMirrorRoutes(r);
    var anchors := AnchorsOf(r);
    var chains := Evaluation(r).proof.proofChains;
    RoutesCanonical(anchors);
    ChainsOfRoutes(Routes(anchors), chains);
    forall c | c in chains
      ensures ChainChecks(r, c)
    {
      AnchorPathChecks(r, RouteOf(c));
    }
    assert anchors[0] in anchors;
  }

  lemma NoChainContinues(paths: seq<Path>, p: Path, q: Path)
    requires p in MaximalPaths(paths) && q in MaximalPaths(paths)
    requires |p.nodeIds| == |p.edgeIds| + 1 && |q.nodeIds| == |q.edgeIds| + 1
    requires p != q
    ensures !Begins(p, q)
  {
    MaximalMembers(paths, p);
    MaximalMembers(paths, q);
  }

  // ----- conflicted proofs

  /** The two records of a conflict are engaged, and it is declared or derived. */
  ghost predicate ConflictHolds(r: Request, c: Conflict) {
    && Engaged(r, c.leftNodeId) && Engaged(r, c.rightNodeId)
    && (c in r.conflicts || Derived(r, c))
  }

  ghost predicate Derived(r: Request, c: Conflict) {
    && c.ruleId == "conflict.subject_outcome"
    && StringLess(c.leftNodeId, c.rightNodeId)
    && exists x, y :: x in r.nodes && y in r.nodes && Contradict(x, y)
                      && x.id == c.leftNodeId && y.id == c.rightNodeId
  }

  lemma DerivedMeaning(r: Request, c: Conflict)
    requires WellFormed(r)
    requires KernelView(r).Active(c.leftNodeId) && KernelView(r).Active(c.rightNodeId)
    ensures c in StructuredConflicts(KernelView(r).nodes, KernelView(r).superseded) <==> Derived(r, c)
  {
    var view := KernelView(r);
    StructuredMembers(view.nodes, view.superseded, c);
    NodeMapLookup(r.nodes);
    if Derived(r, c) {
      var x, y :| x in r.nodes && y in r.nodes && Contradict(x, y)
                  && x.id == c.leftNodeId && y.id == c.rightNodeId;
      StructuredIntro(view.nodes, view.superseded, x.id, y.id);
    }
    if c in StructuredConflicts(view.nodes, view.superseded) {
      var j, k :| j in view.nodes && k in view.nodes
                  && IsStructuredDecision(view.superseded, view.nodes[j])
                  && IsStructuredDecision(view.superseded, view.nodes[k])
                  && Disagree(view.nodes[j], view.nodes[k])
                  && c == Conflict(view.nodes[j].id, view.nodes[k].id, SUBJECT_OUTCOME);
      assert view.nodes[j].id != view.nodes[k].id by {
        StringOrder();
      }
      assert Contradict(view.nodes[j], view.nodes[k]);
    }
  }

  /** A conflicted proof lists exactly the conflicts that hold, each once, in order. */
  lemma ConflictsReported(r: Request)
    requires Evaluation(r).ProofResponse? && Evaluation(r).proof.verdict == Conflicted
    ensures StrictlySorted(ConflictLess, Evaluation(r).proof.conflicts)
    ensures forall c :: c in Evaluation(r).proof.conflicts <==> ConflictHolds(r, c)
  {
    EvaluationMeaning(r);
    TraversedMeaning(r);
    var view := KernelView(r);
    var reachable := Ends(AllPaths(view, r.goal.targetId));
    var found := ConflictsFound(r, view, reachable);
    ConflictOrder();
    SortUniqueSorted(ConflictLess, found);
    forall c
      ensures c in Evaluation(r).proof.conflicts <==> ConflictHolds(r, c)
    {
      MaterialMembers(view, reachable, r.conflicts + StructuredConflicts(view.nodes, view.superseded), c);
      EngagedMeaning(r, c.leftNodeId);
      EngagedMeaning(r, c.rightNodeId);
      if view.Active(c.leftNodeId) && view.Active(c.rightNodeId) {
        DerivedMeaning(r, c);
      }
    }
  }

  lemma ConcludeConflicted(conflicts: seq<Conflict>, view: View, t: Traversal)
    requires t.paths != [] && forall p :: p in t.paths ==> Last(p) in view.nodes
    requires Conclude(conflicts, view, t).verdict == Conflicted
    ensures Conclude(conflicts, view, t) == ConflictedProof(conflicts)
  {
  }

  lemma ConflictedShape(r: Request)
    requires Evaluation(r).ProofResponse? && Evaluation(r).proof.verdict == Conflicted
    ensures Evaluation(r).proof == ProofResult(Conflicted, [], [], Evaluation(r).proof.conflicts)
  {
    EvaluationMeaning(r);
    var view := KernelView(r);
    var t := Traversed(r.goal, view).value;
    ConcludeConflicted(ConflictsFound(r, view, t.reachable), view, t);
  }

  // ----- incomplete proofs

  /** Longest, and among the longest first by node ids. */
  ghost predicate Frontier(r: Request, p: Path) {
    && SimplePath(KernelView(r), r.goal.targetId, p)
    && forall q: Path :: SimplePath(KernelView(r), r.goal.targetId, q) ==>
         |q.edgeIds| < |p.edgeIds| || (|q.edgeIds| == |p.edgeIds| && !StringsLess(q.nodeIds, p.nodeIds))
  }

  /** What is missing after a record of each kind. */
  ghost predicate MissingAfter(n: Node, gap: Gap) {
    && gap.fromNodeId == Some(n.id)
    && (n.kind == CodeTarget ==> gap.code == TargetToChange && gap.toKind == Some(Change))
    && (n.kind == Change ==> gap.code == ChangeToReview && gap.toKind == Some(Review))
    && (n.kind == Review ==> gap.code == ChangeToWorkItem && gap.toKind == Some(WorkItem))
    && (n.kind == WorkItem ==> gap.code == WorkItemToDecision && gap.toKind == Some(Decision))
    && (n.kind == Decision ==> gap.code == DecisionToVerification && gap.toKind == Some(Verification))
    && (n.kind == Verification ==> gap.code == NoCurrentAnchor && gap.toKind == None)
  }

  lemma GapAfterFrontier(r: Request) returns (p: Path, n: Node)
    requires Evaluation(r).ProofResponse?
    requires Evaluation(r).proof.verdict == Partial || Evaluation(r).proof.verdict == NotEstablished
    ensures Frontier(r, p) && n in r.nodes && n.id == Last(p)
    ensures Evaluation(r).proof.gaps == [Rules.GapFor(n)]
    ensures Evaluation(r).proof.verdict == NotEstablished <==> p.edgeIds == []
    ensures Evaluation(r).proof.proofChains == [] && Evaluation(r).proof.conflicts == []
  {
    EvaluationMeaning(r);
    TraversedMeaning(r);
    var view := KernelView(r);
    var all := AllPaths(view, r.goal.targetId);
    ViewEdgesDistinct(r);
    TraversalExactness(view, r.goal.targetId);
    NothingAbsent(r);
    NodeMapLookup(r.nodes);
    p := DeepestPath(all);
    n := view.nodes[Last(p)];
    DeeperOrder();
    SortHead(Deeper, all);
  }

  lemma GapIsMissing(n: Node)
    ensures MissingAfter(n, Rules.GapFor(n))
  {
  }

  /** An incomplete proof names one gap: what is missing after the last node of a deepest path. */
  lemma GapReported(r: Request) returns (p: Path, n: Node)
    requires Evaluation(r).ProofResponse?
    requires Evaluation(r).proof.verdict == Partial || Evaluation(r).proof.verdict == NotEstablished
    ensures Frontier(r, p) && n in r.nodes && n.id == Last(p)
    ensures |Evaluation(r).proof.gaps| == 1 && MissingAfter(n, Evaluation(r).proof.gaps[0])
    ensures Evaluation(r).proof.verdict == NotEstablished <==> p.edgeIds == []
    ensures Evaluation(r).proof.proofChains == [] && Evaluation(r).proof.conflicts == []
  {
    p, n := GapAfterFrontier(r);
    GapIsMissing(n);
  }

  // ----- the order of what is listed

  /** Fewer edges first, then by edge ids, then by node ids. */
  ghost predicate ChainPrecedes(a: ProofChain, b: ProofChain) {
    || |a.edgeIds| < |b.edgeIds|
    || (|a.edgeIds| == |b.edgeIds|
        && (|| ListPrecedes(a.edgeIds, b.edgeIds)
            || (a.edgeIds == b.edgeIds && ListPrecedes(a.nodeIds, b.nodeIds))))
  }

  /** By the left record, then the right one, then the rule. */
  ghost predicate ConflictPrecedes(a: Conflict, b: Conflict) {
    || Precedes(a.leftNodeId, b.leftNodeId)
    || (a.leftNodeId == b.leftNodeId
        && (|| Precedes(a.rightNodeId, b.rightNodeId)
            || (a.rightNodeId == b.rightNodeId && Precedes(a.ruleId, b.ruleId))))
  }

  lemma PathLessMeaning(a: ProofChain, b: ProofChain)
    requires a.nodeIds != [] && b.nodeIds != [] && PathLess(RouteOf(a), RouteOf(b))
    ensures ChainPrecedes(a, b)
  {
    StringsLessMeaning(a.edgeIds, b.edgeIds);
    StringsLessMeaning(a.nodeIds, b.nodeIds);
  }

  lemma ConflictLessMeaning(a: Conflict, b: Conflict)
    requires ConflictLess(a, b)
    ensures ConflictPrecedes(a, b)
  {
    StringLessMeaning(a.leftNodeId, b.leftNodeId);
    StringLessMeaning(a.rightNodeId, b.rightNodeId);
    StringLessMeaning(a.ruleId, b.ruleId);
  }

  lemma ChainsListed(chains: seq<ProofChain>)
    requires Canonical(chains)
    ensures forall i, j :: 0 <= i < j < |chains| ==> ChainPrecedes(chains[i], chains[j])
  {
    forall i, j | 0 <= i < j < |chains|
      ensures ChainPrecedes(chains[i], chains[j])
    {
      PathLessMeaning(chains[i], chains[j]);
    }
  }

  lemma ConflictsListed(conflicts: seq<Conflict>)
    requires StrictlySorted(ConflictLess, conflicts)
    ensures forall i, j :: 0 <= i < j < |conflicts| ==> ConflictPrecedes(conflicts[i], conflicts[j])
  {
    forall i, j | 0 <= i < j < |conflicts|
      ensures ConflictPrecedes(conflicts[i], conflicts[j])
    {
      ConflictLessMeaning(conflicts[i], conflicts[j]);
    }
  }

  /** Chains are listed with fewer edges first, then by the codes of their ids; conflicts by left,
      right and rule. */
  lemma ListedInOrder(r: Request)
    requires Evaluation(r).ProofResponse?
    ensures var chains := Evaluation(r).proof.proofChains;
            forall i, j :: 0 <= i < j < |chains| ==> ChainPrecedes(chains[i], chains[j])
    ensures var conflicts := Evaluation(r).proof.conflicts;
            forall i, j :: 0 <= i < j < |conflicts| ==> ConflictPrecedes(conflicts[i], conflicts[j])
  {
    if Evaluation(r).proof.verdict == Established {
      CanonicalChains(r);
      ChainsListed(Evaluation(r).proof.proofChains);
      EstablishedRoutes(r);
    } else if Evaluation(r).proof.verdict == Conflicted {
      ConflictsReported(r);
      ConflictsListed(Evaluation(r).proof.conflicts);
      ConflictedShape(r);
    } else {
      var p, n := GapReported(r);
    }
  }
}
