/** The kernel on a slice compared with the kernel on the whole snapshot. */
module Slicing {
  import opened Wrappers
  import opened Sequences
  import opened Ordering
  import opened Model
  import opened Proof
  import opened Traversal
  import opened Evaluator
  import opened Paths
  import opened Meaning
  import opened Verdicts
  import opened Chains
  import opened Removal
  import opened Answers
  import opened Parts
  import Rules

  /** `s` is what `r` says about the ids in `kept`, which no edge leaves. */
  ghost predicate SliceOf(r: Request, s: Request, kept: set<string>) {
    && s == r.(nodes := s.nodes, edges := s.edges, conflicts := s.conflicts)
    && (forall n :: n in s.nodes <==> n in r.nodes && n.id in kept)
    && (forall e :: e in s.edges <==> e in r.edges && e.sourceId in kept)
    && (forall c :: c in s.conflicts <==>
                    c in r.conflicts && c.leftNodeId in kept && c.rightNodeId in kept)
    && r.goal.targetId in kept
    && (forall e :: e in r.edges && e.sourceId in kept ==> e.targetId in kept)
  }

  // ----- nothing is lost

  lemma SliceIsPart(r: Request, s: Request, kept: set<string>)
    requires WellFormed(r) && WellFormed(s) && SliceOf(r, s, kept)
    ensures PartOf(r, s)
  {
  }

  lemma {:induction false} SliceHop(r: Request, s: Request, kept: set<string>, p: Path, i: nat)
    requires WellFormed(r) && WellFormed(s) && SliceOf(r, s, kept)
    requires SimplePath(KernelView(r), r.goal.targetId, p) && i <= |p.edgeIds|
    ensures p.nodeIds[i] in kept
    ensures i < |p.edgeIds| ==> exists e :: e in s.edges && e.id == p.edgeIds[i]
  {
    if i > 0 {
      SliceHop(r, s, kept, p, i - 1);
      var e := HopLink(r, p, i - 1);
    }
    if i < |p.edgeIds| {
      var e := HopLink(r, p, i);
      assert e in s.edges;
    }
  }

  /** A slice has every edge that a path of the snapshot can use. */
  lemma SliceMissesNothing(r: Request, s: Request, kept: set<string>, p: Path)
    requires WellFormed(r) && WellFormed(s) && SliceOf(r, s, kept)
    requires SimplePath(KernelView(r), r.goal.targetId, p)
    ensures UsesOnly(s.edges, p) && Last(p) in kept
  {
    forall id | id in p.edgeIds
      ensures exists e :: e in s.edges && e.id == id
    {
      var i :| 0 <= i < |p.edgeIds| && p.edgeIds[i] == id;
      SliceHop(r, s, kept, p, i);
    }
    SliceHop(r, s, kept, p, |p.edgeIds|);
  }

  /** The paths of the snapshot are the paths of the slice that stand. */
  lemma SlicePaths(r: Request, s: Request, kept: set<string>, p: Path)
    requires WellFormed(r) && WellFormed(s) && SliceOf(r, s, kept)
    ensures SimplePath(KernelView(r), r.goal.targetId, p) <==>
            SimplePath(KernelView(s), r.goal.targetId, p) && Stands(r, p)
  {
    SliceIsPart(r, s, kept);
    PathsOfPart(r, s, p);
    if SimplePath(KernelView(r), r.goal.targetId, p) {
      SliceMissesNothing(r, s, kept, p);
    }
  }

  lemma SliceEngaged(r: Request, s: Request, kept: set<string>, id: string)
    requires WellFormed(r) && WellFormed(s) && SliceOf(r, s, kept)
    ensures Engaged(r, id) <==> StandsAt(r, s, id)
    ensures Engaged(r, id) ==> Engaged(s, id) && id in kept
  {
    SliceIsPart(r, s, kept);
    ReachedInPart(r, s, id);
    EngagedByPath(r, id);
    if Engaged(r, id) {
      var p: Path :| SimplePath(KernelView(r), r.goal.targetId, p) && Last(p) == id;
      SliceMissesNothing(r, s, kept, p);
    }
  }

  lemma SliceConflict(r: Request, s: Request, kept: set<string>, c: Conflict)
    requires WellFormed(r) && WellFormed(s) && SliceOf(r, s, kept) && ConflictHolds(r, c)
    ensures ConflictHolds(s, c)
  {
    SliceIsPart(r, s, kept);
    SliceEngaged(r, s, kept, c.leftNodeId);
    SliceEngaged(r, s, kept, c.rightNodeId);
    DerivedInPart(r, s, c);
  }

  /** Every path to an anchor and every conflict of the snapshot is one of the slice. */
  lemma SliceLosesNothing(r: Request, s: Request, kept: set<string>)
    requires WellFormed(r) && WellFormed(s) && SliceOf(r, s, kept)
    ensures forall p: Path :: AnchorPath(r, p) ==> AnchorPath(s, p)
    ensures forall c :: ConflictHolds(r, c) ==> ConflictHolds(s, c)
    ensures NoConflictLost(r, s) && NoAnchorLost(r, s)
  {
    SliceIsPart(r, s, kept);
    forall p: Path | AnchorPath(r, p)
      ensures AnchorPath(s, p) && UsesOnly(s.edges, p)
    {
      SliceMissesNothing(r, s, kept, p);
      AnchorsOfPart(r, s, p);
    }
    forall c | ConflictHolds(r, c)
      ensures ConflictHolds(s, c)
    {
      SliceConflict(r, s, kept, c);
    }
  }

  // ----- supersession

  /** Every kept record that the snapshot supersedes is superseded by a kept record. */
  ghost predicate SupersedersKept(r: Request, kept: set<string>) {
    forall id :: id in kept && Displaced(r, id) ==> DisplacedFrom(r, kept, id)
  }

  ghost predicate DisplacedFrom(r: Request, kept: set<string>, id: string) {
    exists e, n ::
      && e in r.edges && e.status == Current && e.kind == Supersedes && e.targetId == id
      && n in r.nodes && n.id == e.sourceId && n.status == Current
      && e.sourceId in kept
  }

  lemma SliceDisplaced(r: Request, s: Request, kept: set<string>, id: string)
    requires SliceOf(r, s, kept)
    ensures Displaced(s, id) <==> DisplacedFrom(r, kept, id)
  {
    if Displaced(s, id) {
      var e, n :|
        && e in s.edges && e.status == Current && e.kind == Supersedes && e.targetId == id
        && n in s.nodes && n.id == e.sourceId && n.status == Current;
      assert e in r.edges && n in r.nodes;
    }
    if DisplacedFrom(r, kept, id) {
      var e, n :|
        && e in r.edges && e.status == Current && e.kind == Supersedes && e.targetId == id
        && n in r.nodes && n.id == e.sourceId && n.status == Current
        && e.sourceId in kept;
      assert e in s.edges && n in s.nodes;
    }
  }

  /** Supersession in the slice agrees with the snapshot exactly when superseders are kept. */
  lemma SupersessionAgrees(r: Request, s: Request, kept: set<string>)
    requires SliceOf(r, s, kept)
    ensures (forall id :: id in kept ==> (Displaced(s, id) <==> Displaced(r, id)))
            <==> SupersedersKept(r, kept)
  {
    forall id
      ensures Displaced(s, id) <==> DisplacedFrom(r, kept, id)
      ensures DisplacedFrom(r, kept, id) ==> Displaced(r, id)
    {
      SliceDisplaced(r, s, kept, id);
    }
  }

  /** What the slice's walks reach is superseded in the slice whenever it is in the snapshot. */
  ghost predicate ReachedSettled(r: Request, s: Request) {
    forall id :: Reaches(s, id) && Displaced(r, id) ==> Displaced(s, id)
  }

  // ----- when the slice answers the same

  /** Deepest, and among the deepest first, of the slice's paths that stand. */
  ghost predicate DeepestStanding(r: Request, s: Request, p: Path) {
    && SimplePath(KernelView(s), r.goal.targetId, p) && Stands(r, p)
    && forall q: Path :: SimplePath(KernelView(s), r.goal.targetId, q) && Stands(r, q) ==>
         |q.edgeIds| < |p.edgeIds| || (|q.edgeIds| == |p.edgeIds| && !StringsLess(q.nodeIds, p.nodeIds))
  }

  /** What the slice returned stands under the supersession of the snapshot: both sides of every
      conflict listed are reached by paths that stand, no record on a chain is superseded, or the
      deepest path that stands ends at the gap. */
  ghost predicate SliceStands(r: Request, s: Request, proof: ProofResult) {
    match proof.verdict
    case Conflicted =>
      forall c :: c in proof.conflicts ==> StandsAt(r, s, c.leftNodeId) && StandsAt(r, s, c.rightNodeId)
    case Established => ChainsStand(r, proof)
    case _ => exists p: Path, gap ::
      DeepestStanding(r, s, p) && gap in proof.gaps && gap.fromNodeId == Some(Last(p))
  }

  lemma SliceFrontier(r: Request, s: Request, kept: set<string>, p: Path)
    requires WellFormed(r) && WellFormed(s) && SliceOf(r, s, kept)
    ensures Frontier(r, p) <==> DeepestStanding(r, s, p)
  {
    forall q: Path
      ensures SimplePath(KernelView(r), r.goal.targetId, q) <==>
              SimplePath(KernelView(s), r.goal.targetId, q) && Stands(r, q)
    {
      SlicePaths(r, s, kept, q);
    }
  }

  lemma SliceStandsMeaning(r: Request, s: Request, kept: set<string>, proof: ProofResult)
    requires WellFormed(r) && WellFormed(s) && SliceOf(r, s, kept)
    ensures SliceStands(r, s, proof) <==> AnswerStands(r, s, proof)
  {
    SliceLosesNothing(r, s, kept);
    match proof.verdict
    case Conflicted =>
      forall id
        ensures Engaged(r, id) <==> StandsAt(r, s, id)
      {
        SliceEngaged(r, s, kept, id);
      }
    case Established =>
    case _ =>
      forall p: Path
        ensures Frontier(r, p) <==> DeepestStanding(r, s, p)
      {
        SliceFrontier(r, s, kept, p);
      }
  }

  lemma SliceCap(r: Request, s: Request, kept: set<string>)
    requires WellFormed(r) && WellFormed(s) && SliceOf(r, s, kept)
    ensures WithinCap(r, s) <==> |StandingPaths(r, s)| <= Rules.MAX_PATH_STATES
    ensures Evaluation(s).ProofResponse? ==> WithinCap(r, s)
  {
    ViewEdgesDistinct(r);
    TraversalExactness(KernelView(r), r.goal.targetId);
    forall p | p in AllPaths(KernelView(r), r.goal.targetId)
      ensures UsesOnly(s.edges, p)
    {
      SliceMissesNothing(r, s, kept, p);
    }
    assert MissingPaths(r, s) == {};
    if Evaluation(s).ProofResponse? {
      EvaluationMeaning(s);
      var all := AllPaths(KernelView(s), r.goal.targetId);
      SubsetCard(StandingPaths(r, s), Elements(all));
      ElementsCard(all);
    }
  }

  /** The kernel answers the slice and the snapshot alike exactly when the answer of the slice
      stands under the supersession of the snapshot; a refusal stands when the paths that stand
      are still too many. */
  lemma SliceAnswersExactly(r: Request, s: Request, kept: set<string>)
    requires WellFormed(r) && WellFormed(s) && SliceOf(r, s, kept)
    ensures Evaluation(s) == Evaluation(r) <==>
            if Evaluation(s).ProofResponse? then SliceStands(r, s, Evaluation(s).proof)
            else |StandingPaths(r, s)| > Rules.MAX_PATH_STATES
  {
    SliceIsPart(r, s, kept);
    PartAnswersExactly(r, s);
    SliceCap(r, s, kept);
    if Evaluation(s).ProofResponse? {
      SliceStandsMeaning(r, s, kept, Evaluation(s).proof);
    }
  }

  lemma {:induction false} SliceWalkKept(r: Request, s: Request, kept: set<string>, w: seq<Edge>, id: string)
    requires SliceOf(r, s, kept) && Walk(s, w, id)
    ensures id in kept
  {
    if w != [] {
      SliceWalkKept(r, s, kept, w[..|w| - 1], w[|w| - 1].sourceId);
    }
  }

  /** When superseders are kept, everything reached is settled. */
  lemma SupersedersSettle(r: Request, s: Request, kept: set<string>)
    requires SliceOf(r, s, kept) && SupersedersKept(r, kept)
    ensures ReachedSettled(r, s)
  {
    forall id | Reaches(s, id) && Displaced(r, id)
      ensures Displaced(s, id)
    {
      var w :| Walk(s, w, id);
      SliceWalkKept(r, s, kept, w, id);
      SliceDisplaced(r, s, kept, id);
    }
  }

  /** When what the slice's walks reach is settled, every path of the slice stands. */
  lemma SettledStands(r: Request, s: Request, p: Path)
    requires WellFormed(s) && ReachedSettled(r, s) && s.goal == r.goal
    requires SimplePath(KernelView(s), s.goal.targetId, p)
    ensures Stands(r, p)
    ensures Active(s, Last(p)) ==> Undisplaced(r, p)
  {
    forall id | id in p.nodeIds && (p.edgeIds != [] || Active(s, id))
      ensures !Displaced(r, id)
    {
      var k :| 0 <= k < |p.nodeIds| && p.nodeIds[k] == id;
      if p.edgeIds != [] {
        PathActive(s, p, k);
      }
      TakeIsSimple(KernelView(s), s.goal.targetId, p, k);
      var w := PathToWalk(s, Take(p, k));
    }
  }

  lemma SettledCount(r: Request, s: Request)
    requires WellFormed(s) && ReachedSettled(r, s) && s.goal == r.goal
    ensures |StandingPaths(r, s)| == |AllPaths(KernelView(s), s.goal.targetId)|
  {
    ViewEdgesDistinct(s);
    TraversalExactness(KernelView(s), s.goal.targetId);
    forall p: Path | SimplePath(KernelView(s), s.goal.targetId, p)
      ensures Stands(r, p)
    {
      SettledStands(r, s, p);
    }
    SimplePathCount(KernelView(s), s.goal.targetId, StandingPaths(r, s));
  }

  lemma SettledConflicts(r: Request, s: Request)
    requires WellFormed(s) && ReachedSettled(r, s) && s.goal == r.goal
    ensures forall c :: ConflictHolds(s, c) ==> StandsAt(r, s, c.leftNodeId) && StandsAt(r, s, c.rightNodeId)
  {
    forall id | Engaged(s, id)
      ensures StandsAt(r, s, id)
    {
      EngagedByPath(s, id);
      var p: Path :| SimplePath(KernelView(s), s.goal.targetId, p) && Last(p) == id;
      SettledStands(r, s, p);
    }
  }

  lemma SettledAnchors(r: Request, s: Request)
    requires WellFormed(s) && ReachedSettled(r, s) && s.goal == r.goal
    ensures forall p: Path :: AnchorPath(s, p) ==> Undisplaced(r, p)
  {
    forall p: Path | AnchorPath(s, p)
      ensures Undisplaced(r, p)
    {
      SettledStands(r, s, p);
    }
  }

  lemma SettledFrontier(r: Request, s: Request, p: Path)
    requires WellFormed(s) && ReachedSettled(r, s) && s.goal == r.goal && Frontier(s, p)
    ensures DeepestStanding(r, s, p)
  {
    SettledStands(r, s, p);
  }

  lemma SettledGap(r: Request, s: Request, proof: ProofResult, p: Path, n: Node)
    requires WellFormed(s) && ReachedSettled(r, s) && s.goal == r.goal
    requires Frontier(s, p) && NamesGap(proof, p, n)
    ensures SliceStands(r, s, proof)
  {
    SettledFrontier(r, s, p);
    assert Rules.GapFor(n) in proof.gaps && Rules.GapFor(n).fromNodeId == Some(Last(p));
  }

  lemma SettledChains(r: Request, s: Request)
    requires WellFormed(s) && ReachedSettled(r, s) && s.goal == r.goal
    requires Evaluation(s).ProofResponse? && VerdictOf(s) == Established
    ensures ChainsStand(r, Evaluation(s).proof)
  {
    SettledAnchors(r, s);
    ChainsStandMeaning(r, s);
  }

  lemma SettledProof(r: Request, s: Request)
    requires WellFormed(s) && ReachedSettled(r, s) && s.goal == r.goal && Evaluation(s).ProofResponse?
    ensures SliceStands(r, s, Evaluation(s).proof)
  {
    if VerdictOf(s) == Conflicted {
      SettledConflicts(r, s);
      ConflictsReported(s);
    } else if VerdictOf(s) == Established {
      SettledChains(r, s);
    } else {
      var p, n := NamedGap(s);
      SettledGap(r, s, Evaluation(s).proof, p, n);
    }
  }

  /** When what the slice's walks reach is settled, the kernel gives the identical response on
      the slice and on the snapshot, the path-state limit included. */
  lemma SliceAnswersTheSame(r: Request, s: Request, kept: set<string>)
    requires WellFormed(r) && WellFormed(s)
    requires SliceOf(r, s, kept) && ReachedSettled(r, s)
    ensures Evaluation(s) == Evaluation(r)
  {
    SliceAnswersExactly(r, s, kept);
    if Evaluation(s).ProofResponse? {
      SettledProof(r, s);
    } else {
      EvaluationMeaning(s);
      SettledCount(r, s);
    }
  }

  // ----- when the enumerations coincide

  ghost predicate SamePaths(r: Request, s: Request) {
    forall p: Path ::
      SimplePath(KernelView(s), r.goal.targetId, p) <==> SimplePath(KernelView(r), r.goal.targetId, p)
  }

  /** Every link of the slice from a reached node to another node is a link of the snapshot. */
  ghost predicate NoNewLink(r: Request, s: Request) {
    forall e :: Link(s, e) && Reaches(s, e.sourceId) && e.sourceId != e.targetId ==> Link(r, e)
  }

  lemma SharedHop(r: Request, s: Request, p: Path, i: nat)
    requires WellFormed(r) && WellFormed(s) && NoNewLink(r, s)
    requires SimplePath(KernelView(s), s.goal.targetId, p) && i < |p.edgeIds|
    ensures Step(KernelView(r), p.nodeIds[i], p.edgeIds[i], p.nodeIds[i + 1])
  {
    var e := HopLink(s, p, i);
    TakeIsSimple(KernelView(s), s.goal.targetId, p, i);
    var w := PathToWalk(s, Take(p, i));
    LinkIsStep(r, e);
  }

  lemma NoNewLinkSuffices(r: Request, s: Request, kept: set<string>)
    requires WellFormed(r) && WellFormed(s) && SliceOf(r, s, kept) && NoNewLink(r, s)
    ensures SamePaths(r, s)
  {
    forall p: Path
      ensures SimplePath(KernelView(s), r.goal.targetId, p) <==> SimplePath(KernelView(r), r.goal.targetId, p)
    {
      SlicePaths(r, s, kept, p);
      if SimplePath(KernelView(s), r.goal.targetId, p) {
        forall i | 0 <= i < |p.edgeIds|
          ensures Step(KernelView(r), p.nodeIds[i], p.edgeIds[i], p.nodeIds[i + 1])
        {
          SharedHop(r, s, p, i);
        }
      }
    }
  }

  lemma BothActive(r: Request, p: Path, source: string, target: string)
    requires WellFormed(r) && SimplePath(KernelView(r), r.goal.targetId, p)
    requires source in p.nodeIds && target in p.nodeIds && source != target
    ensures Active(r, source) && Active(r, target)
  {
    var i :| 0 <= i < |p.nodeIds| && p.nodeIds[i] == source;
    var j :| 0 <= j < |p.nodeIds| && p.nodeIds[j] == target;
    PathActive(r, p, i);
    PathActive(r, p, j);
  }

  lemma NewLinkIsSeen(r: Request, s: Request, kept: set<string>, e: Edge)
    requires WellFormed(r) && WellFormed(s) && SliceOf(r, s, kept) && SamePaths(r, s)
    requires Link(s, e) && Reaches(s, e.sourceId) && e.sourceId != e.targetId
    ensures Link(r, e)
  {
    var w :| Walk(s, w, e.sourceId);
    var q := WalkToPath(s, w, e.sourceId);
    var p: Path := q;
    if e.targetId !in q.nodeIds {
      LinkExtends(s, q, e);
      p := Append(q, e);
      assert p.nodeIds[|q.nodeIds|] == e.targetId && p.nodeIds[|q.nodeIds| - 1] == e.sourceId;
    }
    BothActive(r, p, e.sourceId, e.targetId);
  }

  /** Slice and snapshot have the same simple paths from the target exactly when the slice adds no
      link between two different nodes at a node its walks reach. */
  lemma PathsCoincide(r: Request, s: Request, kept: set<string>)
    requires WellFormed(r) && WellFormed(s) && SliceOf(r, s, kept)
    ensures SamePaths(r, s) <==> NoNewLink(r, s)
  {
    if NoNewLink(r, s) {
      NoNewLinkSuffices(r, s, kept);
    }
    if SamePaths(r, s) {
      forall e | Link(s, e) && Reaches(s, e.sourceId) && e.sourceId != e.targetId
        ensures Link(r, e)
      {
        NewLinkIsSeen(r, s, kept, e);
      }
    }
  }
}
