/** When the kernel gives two requests the identical response. */
module Answers {
  import opened Wrappers
  import opened Ordering
  import opened Model
  import opened Proof
  import opened Traversal
  import opened Evaluator
  import opened Paths
  import opened Meaning
  import opened Verdicts
  import opened Chains
  import opened Removal
  import Rules

  /** Two requests with one question, which do not disagree on the content of a record. */
  ghost predicate SameQuestion(r: Request, s: Request) {
    && s == r.(nodes := s.nodes, edges := s.edges, conflicts := s.conflicts)
    && forall x, y :: x in r.nodes && y in s.nodes && x.id == y.id ==> x == y
  }

  lemma AnswerShape(r: Request)
    requires Evaluation(r).ProofResponse?
    ensures Evaluation(r) == ProofResponse(1, r.requestId, r.snapshotId, Evaluation(r).proof)
  {
  }

  lemma ProofDecides(r: Request, s: Request, a: Response, b: Response)
    requires SameQuestion(r, s) && a.ProofResponse? && b.ProofResponse?
    requires a == ProofResponse(1, r.requestId, r.snapshotId, a.proof)
    requires b == ProofResponse(1, s.requestId, s.snapshotId, b.proof)
    ensures b == a <==> b.proof == a.proof
  {
  }

  /** A refusal of a well-formed request says nothing but that there are too many paths. */
  lemma RefusalsAgree(r: Request, s: Request)
    requires SameQuestion(r, s) && WellFormed(r) && WellFormed(s)
    requires !Evaluation(s).ProofResponse?
    ensures Evaluation(s) == Evaluation(r) <==> !Evaluation(r).ProofResponse?
  {
    EvaluationMeaning(r);
    EvaluationMeaning(s);
  }

  ghost predicate SameConflicts(r: Request, s: Request) {
    forall c :: ConflictHolds(s, c) <==> ConflictHolds(r, c)
  }

  ghost predicate SameAnchors(r: Request, s: Request) {
    forall p: Path :: AnchorPath(s, p) <==> AnchorPath(r, p)
  }

  // ----- conflicted answers

  lemma ConflictedAgree(r: Request, s: Request)
    requires Evaluation(r).ProofResponse? && Evaluation(s).ProofResponse?
    requires VerdictOf(r) == VerdictOf(s) == Conflicted
    ensures Evaluation(s).proof == Evaluation(r).proof <==>
            SameConflicts(r, s)
  {
    ConflictedShape(r);
    ConflictedShape(s);
    ConflictsReported(r);
    ConflictsReported(s);
    if SameConflicts(r, s) {
      ConflictOrder();
      StrictlySortedEqual(ConflictLess, Evaluation(s).proof.conflicts, Evaluation(r).proof.conflicts);
    }
  }

  // ----- established answers

  lemma SameAnchorsSameProof(a: seq<Path>, b: seq<Path>)
    requires forall p: Path :: p in a <==> p in b
    ensures EstablishedProof(a) == EstablishedProof(b)
  {
    PathOrder();
    SortUniqueSorted(PathLess, MaximalPaths(a));
    SortUniqueSorted(PathLess, MaximalPaths(b));
    forall p: Path
      ensures p in Routes(a) <==> p in Routes(b)
    {
      MaximalMembers(a, p);
      MaximalMembers(b, p);
    }
    StrictlySortedEqual(PathLess, Routes(a), Routes(b));
  }

  lemma {:induction false} SameChainsSameRoutes(a: seq<Path>, b: seq<Path>)
    requires EstablishedProof(a) == EstablishedProof(b)
    ensures Routes(a) == Routes(b)
  {
    var x, y := EstablishedProof(a).proofChains, EstablishedProof(b).proofChains;
    forall i | 0 <= i < |x|
      ensures Routes(a)[i] == Routes(b)[i]
    {
      assert x[i] == ChainOf(Routes(a)[i]) && y[i] == ChainOf(Routes(b)[i]);
    }
  }

  /** A beginning of an anchor path, ending at an anchor of the other request, is one itself. */
  lemma BeginningIsAnchorPath(r: Request, s: Request, p: Path, q: Path)
    requires SameQuestion(r, s) && WellFormed(r)
    requires AnchorPath(s, p) && AnchorPath(r, q) && Begins(p, q)
    ensures AnchorPath(r, p)
  {
    var k := |p.edgeIds|;
    TakeIsSimple(KernelView(r), r.goal.targetId, q, k);
    assert p == Take(q, k);
    if q.edgeIds != [] {
      PathActive(r, q, k);
      var n :| AnchorRecord(s, n) && n.id == Last(p);
      var m :| ActiveRecord(r, m) && m.id == Last(p);
      assert AnchorRecord(r, m);
    }
  }

  /** The anchor paths of an established proof, and the routes through them. */
  lemma EstablishedAnchors(r: Request)
    requires Evaluation(r).ProofResponse? && VerdictOf(r) == Established
    ensures WellFormed(r) && Evaluation(r).proof == EstablishedProof(AnchorsOf(r))
    ensures forall p: Path :: p in AnchorsOf(r) <==> AnchorPath(r, p)
  {
    EstablishedRoutes(r);
    ChainsMirrorRoutes(r);
  }

  lemma CoveringRoute(anchors: seq<Path>, p: Path) returns (q: Path)
    requires p in anchors && forall x :: x in anchors ==> |x.nodeIds| == |x.edgeIds| + 1
    ensures q in Routes(anchors) && Begins(p, q)
  {
    RoutesCanonical(anchors);
    q :| q in Routes(anchors) && Begins(p, q);
  }

  lemma SharedRoute(a: seq<Path>, b: seq<Path>, p: Path) returns (q: Path)
    requires EstablishedProof(a) == EstablishedProof(b) && p in a
    requires forall x :: x in a ==> |x.nodeIds| == |x.edgeIds| + 1
    ensures q in b && Begins(p, q)
  {
    SameChainsSameRoutes(a, b);
    q := CoveringRoute(a, p);
    assert q in Routes(b);
  }

  lemma SharedChain(r: Request, s: Request, p: Path)
    requires SameQuestion(r, s) && WellFormed(r) && AnchorPath(s, p)
    requires forall q: Path :: q in AnchorsOf(r) <==> AnchorPath(r, q)
    requires forall q: Path :: q in AnchorsOf(s) <==> AnchorPath(s, q)
    requires EstablishedProof(AnchorsOf(s)) == EstablishedProof(AnchorsOf(r))
    ensures AnchorPath(r, p)
  {
    var q := SharedRoute(AnchorsOf(s), AnchorsOf(r), p);
    BeginningIsAnchorPath(r, s, p, q);
  }

  lemma AnchorsAgree(r: Request, s: Request)
    requires SameQuestion(r, s) && WellFormed(r) && WellFormed(s)
    requires forall q: Path :: q in AnchorsOf(r) <==> AnchorPath(r, q)
    requires forall q: Path :: q in AnchorsOf(s) <==> AnchorPath(s, q)
    ensures EstablishedProof(AnchorsOf(s)) == EstablishedProof(AnchorsOf(r)) <==>
            SameAnchors(r, s)
  {
    if EstablishedProof(AnchorsOf(s)) == EstablishedProof(AnchorsOf(r)) {
      forall p: Path
        ensures AnchorPath(s, p) <==> AnchorPath(r, p)
      {
        if AnchorPath(s, p) {
          SharedChain(r, s, p);
        }
        if AnchorPath(r, p) {
          SharedChain(s, r, p);
        }
      }
    }
    if SameAnchors(r, s) {
      SameAnchorsSameProof(AnchorsOf(s), AnchorsOf(r));
    }
  }

  lemma EstablishedAgree(r: Request, s: Request)
    requires SameQuestion(r, s)
    requires Evaluation(r).ProofResponse? && Evaluation(s).ProofResponse?
    requires VerdictOf(r) == VerdictOf(s) == Established
    ensures Evaluation(s).proof == Evaluation(r).proof <==>
            SameAnchors(r, s)
  {
    EstablishedAnchors(r);
    EstablishedAnchors(s);
    AnchorsAgree(r, s);
  }

  // ----- incomplete answers

  ghost predicate Incomplete(r: Request) {
    Evaluation(r).ProofResponse? && VerdictOf(r) in {Partial, NotEstablished}
  }

  /** All deepest paths end at one node, and only the bare target is a path back to it. */
  lemma FrontierEnd(r: Request, p: Path, q: Path)
    requires Frontier(r, p) && Frontier(r, q)
    ensures Last(p) == Last(q)
  {
    StringsOrder();
  }

  lemma EndsAtTarget(r: Request, p: Path)
    requires SimplePath(KernelView(r), r.goal.targetId, p)
    ensures p.edgeIds == [] <==> Last(p) == r.goal.targetId
  {
  }

  /** Deepest paths of the two requests end at one node. */
  ghost predicate SameFrontier(r: Request, s: Request) {
    exists p: Path, q: Path :: Frontier(s, p) && Frontier(r, q) && Last(p) == Last(q)
  }

  /** An incomplete proof that names the gap after the last node of the path. */
  ghost predicate NamesGap(proof: ProofResult, p: Path, n: Node) {
    && proof == ProofResult(if p.edgeIds == [] then NotEstablished else Partial, [], [Rules.GapFor(n)], [])
    && n.id == Last(p)
  }

  lemma NamedGap(r: Request) returns (p: Path, n: Node)
    requires Incomplete(r)
    ensures Frontier(r, p) && n in r.nodes && NamesGap(Evaluation(r).proof, p, n)
  {
    p, n := GapAfterFrontier(r);
  }

  lemma SameGap(x: ProofResult, y: ProofResult, p: Path, n: Node, q: Path, m: Node, target: string)
    requires NamesGap(x, p, n) && NamesGap(y, q, m) && (n.id == m.id ==> n == m)
    requires p.edgeIds == [] <==> Last(p) == target
    requires q.edgeIds == [] <==> Last(q) == target
    ensures y == x <==> Last(q) == Last(p)
  {
    if y == x {
      assert Rules.GapFor(n).fromNodeId == Some(n.id) && Rules.GapFor(m).fromNodeId == Some(m.id);
      assert y.gaps[0] == x.gaps[0];
    }
  }

  lemma SameEnd(r: Request, s: Request, p: Path, q: Path)
    requires Frontier(r, p) && Frontier(s, q)
    ensures Last(q) == Last(p) <==> SameFrontier(r, s)
  {
    if SameFrontier(r, s) {
      var a: Path, b: Path :| Frontier(s, a) && Frontier(r, b) && Last(a) == Last(b);
      FrontierEnd(s, q, a);
      FrontierEnd(r, p, b);
    }
  }

  lemma IncompleteAgree(r: Request, s: Request)
    requires SameQuestion(r, s) && Incomplete(r) && Incomplete(s)
    ensures Evaluation(s).proof == Evaluation(r).proof <==> SameFrontier(r, s)
  {
    var p, n := NamedGap(r);
    var q, m := NamedGap(s);
    EndsAtTarget(r, p);
    EndsAtTarget(s, q);
    SameGap(Evaluation(r).proof, Evaluation(s).proof, p, n, q, m, r.goal.targetId);
    SameEnd(r, s, p, q);
  }

  // ----- the theorem

  /** What has to agree depends on the verdict: nothing but the refusal, the conflicts, the paths
      to anchors, or the end of a deepest path. */
  ghost predicate AnswersAgree(verdict: Verdict, r: Request, s: Request) {
    match verdict
    case Conflicted => SameConflicts(r, s)
    case Established =>
      && (forall c :: !ConflictHolds(r, c))
      && SameAnchors(r, s)
    case _ =>
      && (forall c :: !ConflictHolds(r, c)) && (forall p: Path :: !AnchorPath(r, p))
      && SameFrontier(r, s)
  }

  /** The verdict in terms of conflicts and anchor paths. */
  lemma VerdictByPaths(r: Request)
    requires Evaluation(r).ProofResponse?
    ensures WellFormed(r)
    ensures VerdictOf(r) == Conflicted <==> exists c :: ConflictHolds(r, c)
    ensures VerdictOf(r) == Established <==>
            (forall c :: !ConflictHolds(r, c)) && exists p: Path :: AnchorPath(r, p)
    ensures Incomplete(r) <==> (forall c :: !ConflictHolds(r, c)) && forall p: Path :: !AnchorPath(r, p)
  {
    VerdictCharacterisation(r);
    ConflictExists(r);
    AnchorPathExists(r);
  }

  lemma AgreeingVerdicts(r: Request, s: Request)
    requires Evaluation(r).ProofResponse? && Evaluation(s).ProofResponse?
    requires AnswersAgree(VerdictOf(s), r, s)
    ensures Alike(VerdictOf(r), VerdictOf(s))
  {
    VerdictByPaths(r);
    VerdictByPaths(s);
  }

  lemma QuietEstablished(r: Request, s: Request)
    requires forall c :: !ConflictHolds(r, c)
    ensures AnswersAgree(Established, r, s) <==> SameAnchors(r, s)
  {
  }

  lemma EstablishedAnswers(r: Request, s: Request)
    requires SameQuestion(r, s) && Evaluation(r).ProofResponse? && Evaluation(s).ProofResponse?
    requires VerdictOf(r) == VerdictOf(s) == Established
    ensures Evaluation(s).proof == Evaluation(r).proof <==> AnswersAgree(Established, r, s)
  {
    assert forall c :: !ConflictHolds(r, c) by {
      VerdictByPaths(r);
    }
    QuietEstablished(r, s);
    EstablishedAgree(r, s);
  }

  lemma QuietIncomplete(verdict: Verdict, r: Request, s: Request)
    requires verdict in {Partial, NotEstablished}
    requires (forall c :: !ConflictHolds(r, c)) && forall p: Path :: !AnchorPath(r, p)
    ensures AnswersAgree(verdict, r, s) <==> SameFrontier(r, s)
  {
  }

  lemma IncompleteAnswers(r: Request, s: Request)
    requires SameQuestion(r, s) && Incomplete(r) && Incomplete(s)
    ensures Evaluation(s).proof == Evaluation(r).proof <==> AnswersAgree(VerdictOf(s), r, s)
  {
    assert (forall c :: !ConflictHolds(r, c)) && (forall p: Path :: !AnchorPath(r, p)) by {
      VerdictByPaths(r);
    }
    QuietIncomplete(VerdictOf(s), r, s);
    IncompleteAgree(r, s);
  }

  lemma ConflictedAnswers(r: Request, s: Request)
    requires Evaluation(r).ProofResponse? && Evaluation(s).ProofResponse?
    requires VerdictOf(r) == VerdictOf(s) == Conflicted
    ensures Evaluation(s).proof == Evaluation(r).proof <==> AnswersAgree(Conflicted, r, s)
  {
    ConflictedAgree(r, s);
  }

  /** The same verdict, but for the two incomplete ones. */
  ghost predicate Alike(v: Verdict, w: Verdict) {
    v == w || (v in {Partial, NotEstablished} && w in {Partial, NotEstablished})
  }

  lemma ProofsAgree(r: Request, s: Request)
    requires SameQuestion(r, s) && Evaluation(r).ProofResponse? && Evaluation(s).ProofResponse?
    requires Alike(VerdictOf(r), VerdictOf(s))
    ensures Evaluation(s).proof == Evaluation(r).proof <==> AnswersAgree(VerdictOf(s), r, s)
  {
    match VerdictOf(s)
    case Conflicted => ConflictedAnswers(r, s);
    case Established => EstablishedAnswers(r, s);
    case _ => IncompleteAnswers(r, s);
  }

  lemma AnsweredAgree(r: Request, s: Request)
    requires SameQuestion(r, s) && Evaluation(r).ProofResponse? && Evaluation(s).ProofResponse?
    ensures Evaluation(s) == Evaluation(r) <==> AnswersAgree(VerdictOf(s), r, s)
  {
    AnswerShape(r);
    AnswerShape(s);
    ProofDecides(r, s, Evaluation(r), Evaluation(s));
    if AnswersAgree(VerdictOf(s), r, s) {
      AgreeingVerdicts(r, s);
    }
    if Alike(VerdictOf(r), VerdictOf(s)) {
      ProofsAgree(r, s);
    }
  }

  /** Two well-formed requests asking one question are answered alike exactly when both are
      refused, or both answered and what the answer is made of agrees. */
  lemma ResponsesAgree(r: Request, s: Request)
    requires SameQuestion(r, s) && WellFormed(r) && WellFormed(s)
    ensures Evaluation(s) == Evaluation(r) <==>
            && (Evaluation(s).ProofResponse? <==> Evaluation(r).ProofResponse?)
            && (Evaluation(s).ProofResponse? ==> AnswersAgree(VerdictOf(s), r, s))
  {
    if !Evaluation(s).ProofResponse? {
      RefusalsAgree(r, s);
    } else if Evaluation(r).ProofResponse? {
      AnsweredAgree(r, s);
    }
  }
}
