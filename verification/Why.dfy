/** The proof request behind `why`: what is loaded, what is attached, and how the kernel
    answers it compared with the whole snapshot. */
module Why {
  import opened Wrappers
  import opened Sequences
  import opened Ordering
  import opened Model
  import opened Graph
  import opened Evaluator
  import opened Meaning
  import opened Verdicts
  import opened Slicing
  import opened Tables
  import opened Runs
  import opened Reachable
  import opened Store
  import opened Targets
  import opened References
  import Rules

  const WHY_LIMITS := Limits(4_000, 16_384, 4_096)

  datatype WhyError = NoSnapshot | StoreFailed(error: StoreError)

  function QueryId(snapshotId: string, query: string): string {
    "query:" + Digest("rationale-query-v1" + NUL + snapshotId + NUL + query)
  }

  /** The request for a target over a body of evidence. */
  function BuildRequest(ev: Evidence, target: Target, snapshotId: string, query: string): Request {
    var a := Attached(target, Attachment(ev.nodes, ev.edges));
    Request(
      1, QueryId(snapshotId, query), snapshotId,
      Goal(TargetId(target), [Decision, WorkItem]),
      Values(a.nodes), Values(a.edges), SortedConflicts(ev.conflicts))
  }

  /** The ids the store walks to from the target's seeds. */
  ghost function Kept(ev: Evidence, target: Target): set<string> {
    Closure(ev, Elements(ProofSeedIds(target)))
  }

  ghost function SliceRequest(ev: Evidence, target: Target, snapshotId: string, query: string): Request {
    BuildRequest(Restrict(ev, Kept(ev, target)), target, snapshotId, query)
  }

  /** The request `why` asks over the current snapshot, if there is one. */
  ghost function CurrentRequest(db: Database, target: Target, query: string): Option<Request> {
    match db.current
    case None => None
    case Some(sid) => Some(SliceRequest(EvidenceOf(db, sid), target, sid, query))
  }

  // ----- indexing the loaded rows gives back the stored maps

  /** Indexing by id, later edges winning. */
  function IndexEdges(edges: seq<Edge>): map<string, Edge> {
    PutEdges(map[], edges)
  }

  lemma IndexEdgesLookup(edges: seq<Edge>)
    requires DistinctEdgeIds(edges)
    ensures forall e :: e in edges ==> e.id in IndexEdges(edges) && IndexEdges(edges)[e.id] == e
    ensures forall k :: k in IndexEdges(edges) ==> IndexEdges(edges)[k] in edges && IndexEdges(edges)[k].id == k
  {
    PutEdgesMembers(edges);
    forall e | e in edges
      ensures IndexEdges(edges)[e.id] == e
    {
      var f := IndexEdges(edges)[e.id];
      var i :| 0 <= i < |edges| && edges[i] == e;
      var j :| 0 <= j < |edges| && edges[j] == f;
      assert edges[i].id == edges[j].id;
    }
  }

  lemma NodeValuesAt(m: map<string, Node>)
    requires KeyedNodes(m)
    ensures |Values(m)| == |Keys(m)| && Distinct(Keys(m))
    ensures forall i :: 0 <= i < |Keys(m)| ==> Values(m)[i].id == Keys(m)[i]
  {
    ValuesAt(m);
  }

  lemma NodeValues(m: map<string, Node>)
    requires KeyedNodes(m)
    ensures DistinctNodeIds(Values(m))
    ensures forall n :: n in Values(m) <==> n.id in m && m[n.id] == n
  {
    NodeValuesAt(m);
    NodeValuesMembers(m);
  }

  lemma NodesIndexed(m: map<string, Node>)
    requires KeyedNodes(m)
    ensures NodeMap(Values(m)) == m
  {
    NodeValues(m);
    NodeMapLookup(Values(m));
    SameNodes(m, NodeMap(Values(m)), Values(m));
  }

  lemma SameNodes(m: map<string, Node>, index: map<string, Node>, nodes: seq<Node>)
    requires KeyedNodes(m)
    requires forall n :: n in nodes <==> n.id in m && m[n.id] == n
    requires forall n :: n in nodes ==> n.id in index && index[n.id] == n
    requires forall id :: id in index ==> index[id] in nodes && index[id].id == id
    ensures index == m
  {
    forall id
      ensures id in index <==> id in m
    {
      if id in m {
        assert m[id] in nodes;
      }
    }
  }

  lemma EdgeValuesAt(m: map<string, Edge>)
    requires KeyedEdges(m)
    ensures |Values(m)| == |Keys(m)| && Distinct(Keys(m))
    ensures forall i :: 0 <= i < |Keys(m)| ==> Values(m)[i].id == Keys(m)[i]
  {
    ValuesAt(m);
  }

  lemma EdgeValues(m: map<string, Edge>)
    requires KeyedEdges(m)
    ensures DistinctEdgeIds(Values(m))
    ensures forall e :: e in Values(m) <==> e.id in m && m[e.id] == e
  {
    EdgeValuesAt(m);
    EdgeValuesMembers(m);
  }

  lemma EdgesIndexed(m: map<string, Edge>)
    requires KeyedEdges(m)
    ensures IndexEdges(Values(m)) == m
  {
    EdgeValues(m);
    IndexEdgesLookup(Values(m));
    forall id
      ensures id in IndexEdges(Values(m)) <==> id in m
    {
      if id in m {
        assert m[id] in Values(m);
      }
    }
  }

  // ----- closed evidence makes well-formed requests

  lemma CommitAttachedClosed(ev: Evidence, commit: Commit)
    requires ClosedEvidence(ev)
    ensures var a := Attached(CommitTarget(commit), Attachment(ev.nodes, ev.edges));
            commit.id in a.nodes && ClosedEvidence(Evidence(a.nodes, a.edges, ev.conflicts))
  {
    var nodes := InsertAbsent(ev.nodes, commit.id, CommitNode(commit));
    var added := PresentReferences(commit, nodes.Keys);
    PutEdgesOverlay(ev.edges, added);
    PutEdgesMembers(added);
  }

  lemma OverlayClosed(ev: Evidence, id: string, node: Node, stubs: map<string, Node>, added: map<string, Edge>)
    requires ClosedEvidence(ev) && node.id == id
    requires KeyedNodes(stubs) && KeyedEdges(added)
    requires forall k :: k in added ==> added[k].sourceId == id && added[k].targetId in stubs
    ensures ClosedEvidence(Evidence(stubs + ev.nodes[id := node], ev.edges + added, ev.conflicts))
  {
  }

  lemma LinesOverlay(ev: Evidence, target: Target)
    requires target.LinesTarget?
    ensures Attached(target, Attachment(ev.nodes, ev.edges))
            == Attachment(
                 PutAbsent(map[], IntroducedNodes(target.introducedBy))
                 + ev.nodes[TargetId(target) := LinesNode(target)],
                 ev.edges + PutEdges(map[], IntroducedEdges(target)))
  {
    PutAbsentOverlay(ev.nodes[TargetId(target) := LinesNode(target)], IntroducedNodes(target.introducedBy));
    PutEdgesOverlay(ev.edges, IntroducedEdges(target));
  }

  lemma IntroducedAdded(target: Target, added: map<string, Edge>)
    requires target.LinesTarget? && added == PutEdges(map[], IntroducedEdges(target))
    ensures KeyedEdges(added)
    ensures forall k :: k in added ==>
              && added[k] in IntroducedEdges(target)
              && added[k].sourceId == TargetId(target) && added[k].targetId in target.introducedBy
  {
    PutEdgesMembers(IntroducedEdges(target));
  }

  lemma LinesAdded(target: Target, stubs: map<string, Node>, added: map<string, Edge>)
    requires target.LinesTarget?
    requires stubs == PutAbsent(map[], IntroducedNodes(target.introducedBy))
    requires added == PutEdges(map[], IntroducedEdges(target))
    ensures KeyedNodes(stubs) && KeyedEdges(added)
    ensures stubs.Keys == Elements(target.introducedBy)
    ensures forall k :: k in added ==>
              && added[k] in IntroducedEdges(target)
              && added[k].sourceId == TargetId(target) && added[k].targetId in stubs
  {
    IntroducedNodesMembers(target.introducedBy);
    IntroducedAdded(target, added);
  }

  lemma LinesAttachedClosed(ev: Evidence, target: Target)
    requires ClosedEvidence(ev) && target.LinesTarget?
    ensures var a := Attached(target, Attachment(ev.nodes, ev.edges));
            TargetId(target) in a.nodes && ClosedEvidence(Evidence(a.nodes, a.edges, ev.conflicts))
  {
    var stubs := PutAbsent(map[], IntroducedNodes(target.introducedBy));
    var added := PutEdges(map[], IntroducedEdges(target));
    LinesOverlay(ev, target);
    LinesAdded(target, stubs, added);
    OverlayClosed(ev, TargetId(target), LinesNode(target), stubs, added);
  }

  lemma AttachedClosed(ev: Evidence, target: Target)
    requires ClosedEvidence(ev)
    ensures var a := Attached(target, Attachment(ev.nodes, ev.edges));
            TargetId(target) in a.nodes && ClosedEvidence(Evidence(a.nodes, a.edges, ev.conflicts))
  {
    match target
    case CommitTarget(commit) => CommitAttachedClosed(ev, commit);
    case LinesTarget(_, _, _, _, _) => LinesAttachedClosed(ev, target);
  }

  lemma AttachedMembers(ev: Evidence, target: Target, snapshotId: string, query: string)
    requires ClosedEvidence(ev)
    ensures var a := Attached(target, Attachment(ev.nodes, ev.edges));
            var r := BuildRequest(ev, target, snapshotId, query);
            && DistinctNodeIds(r.nodes) && DistinctEdgeIds(r.edges)
            && (forall n :: n in r.nodes <==> n.id in a.nodes && a.nodes[n.id] == n)
            && (forall e :: e in r.edges <==> e.id in a.edges && a.edges[e.id] == e)
            && (forall id :: id in a.nodes ==> HasNode(r, id))
  {
    var a := Attached(target, Attachment(ev.nodes, ev.edges));
    var r := BuildRequest(ev, target, snapshotId, query);
    AttachedClosed(ev, target);
    NodeValues(a.nodes);
    EdgeValues(a.edges);
    forall id | id in a.nodes
      ensures HasNode(r, id)
    {
      assert a.nodes[id] in r.nodes;
    }
  }

  lemma RequestReferences(ev: Evidence, target: Target, snapshotId: string, query: string)
    requires ClosedEvidence(ev)
    ensures var r := BuildRequest(ev, target, snapshotId, query);
            && HasNode(r, r.goal.targetId)
            && (forall e :: e in r.edges ==> HasNode(r, e.sourceId) && HasNode(r, e.targetId))
            && (forall c :: c in r.conflicts ==> HasNode(r, c.leftNodeId) && HasNode(r, c.rightNodeId))
  {
    AttachedClosed(ev, target);
    AttachedMembers(ev, target, snapshotId, query);
  }

  lemma RequestOverClosed(ev: Evidence, target: Target, snapshotId: string, query: string)
    requires ClosedEvidence(ev)
    ensures var r := BuildRequest(ev, target, snapshotId, query);
            WellFormed(r) <==> |r.nodes| <= Rules.MAX_NODES && |r.edges| <= Rules.MAX_EDGES
  {
    var r := BuildRequest(ev, target, snapshotId, query);
    RequestReferences(ev, target, snapshotId, query);
    assert DistinctNodeIds(r.nodes) && DistinctEdgeIds(r.edges) by {
      AttachedMembers(ev, target, snapshotId, query);
    }
    assert r.protocolVersion == 1 && r.goal.anchorKinds == [Decision, WorkItem];
    WellFormedParts(r);
  }

  lemma WellFormedParts(r: Request)
    requires r.protocolVersion == 1 && r.goal.anchorKinds == [Decision, WorkItem]
    requires DistinctNodeIds(r.nodes) && DistinctEdgeIds(r.edges)
    requires HasNode(r, r.goal.targetId)
    requires forall e :: e in r.edges ==> HasNode(r, e.sourceId) && HasNode(r, e.targetId)
    requires forall c :: c in r.conflicts ==> HasNode(r, c.leftNodeId) && HasNode(r, c.rightNodeId)
    ensures WellFormed(r) <==> |r.nodes| <= Rules.MAX_NODES && |r.edges| <= Rules.MAX_EDGES
  {
  }

  lemma OversizeIsResourceLimit(r: Request)
    requires r.protocolVersion == 1
    requires |r.nodes| > Rules.MAX_NODES || |r.edges| > Rules.MAX_EDGES
    ensures Evaluation(r).ErrorResponse? && Evaluation(r).error.code == ResourceLimit
  {
  }

  /** The kernel answers a request over closed evidence with a proof or a resource limit:
      never a missing record, never an invalid request. */
  lemma RequestsAreAnswered(ev: Evidence, target: Target, snapshotId: string, query: string)
    requires ClosedEvidence(ev)
    ensures var response := Evaluation(BuildRequest(ev, target, snapshotId, query));
            response.ProofResponse? || response.error.code == ResourceLimit
  {
    var r := BuildRequest(ev, target, snapshotId, query);
    RequestOverClosed(ev, target, snapshotId, query);
    if WellFormed(r) {
      EvaluationMeaning(r);
    } else {
      OversizeIsResourceLimit(r);
    }
  }

  lemma StoredEvidenceClosed(db: Database, sid: string)
    requires CommittedValid(db) && sid in db.snapshots
    ensures ClosedEvidence(EvidenceOf(db, sid))
  {
    assert Closed(db, db.snapshots[sid]);
  }

  lemma CurrentIsAnswered(db: Database, target: Target, query: string)
    requires CommittedValid(db) && CurrentRequest(db, target, query).Some?
    ensures var response := Evaluation(CurrentRequest(db, target, query).value);
            response.ProofResponse? || response.error.code == ResourceLimit
  {
    var sid := db.current.value;
    var ev := EvidenceOf(db, sid);
    StoredEvidenceClosed(db, sid);
    ClosureIsLeast(ev, Elements(ProofSeedIds(target)));
    RestrictClosed(ev, Kept(ev, target));
    RequestsAreAnswered(Restrict(ev, Kept(ev, target)), target, sid, query);
  }

  /** After any run of the store, every request `why` builds is answered that way. */
  lemma WhyIsAnswered(ops: seq<Operation>, target: Target, query: string)
    ensures var request := CurrentRequest(Run(INITIAL, ops).committed, target, query);
            request.Some? ==>
              var response := Evaluation(request.value);
              response.ProofResponse? || response.error.code == ResourceLimit
  {
    InitialValid();
    RunKeeps(INITIAL, ops);
    var db := Run(INITIAL, ops).committed;
    if db.current.Some? {
      CurrentIsAnswered(db, target, query);
    }
  }

  // ----- the slice against the snapshot

  /** The ids a slice is about: what the store walks to, and the target. */
  ghost function KeptWithTarget(ev: Evidence, target: Target): set<string> {
    Kept(ev, target) + {TargetId(target)}
  }

  /** A line target is new to what the snapshot says of the kept records: it was walked to, or
      no stored edge that its own do not replace leaves it and no stored conflict ties it to a
      kept record. A target that is no record of the snapshot is always new. */
  ghost predicate NewLines(ev: Evidence, target: Target)
    requires target.LinesTarget?
  {
    || TargetId(target) in Kept(ev, target)
    || (&& NoOtherEdge(ev, TargetId(target), PutEdges(map[], IntroducedEdges(target)))
        && NoKeptConflict(ev, TargetId(target), KeptWithTarget(ev, target)))
  }

  /** Every stored edge that leaves the id is replaced by an added one. */
  ghost predicate NoOtherEdge(ev: Evidence, id: string, added: map<string, Edge>) {
    forall k :: k in ev.edges && ev.edges[k].sourceId == id ==> k in added
  }

  ghost predicate NoKeptConflict(ev: Evidence, id: string, kept: set<string>) {
    forall c :: c in ev.conflicts ==>
      && !(c.leftNodeId == id && c.rightNodeId in kept)
      && !(c.rightNodeId == id && c.leftNodeId in kept)
  }

  /** The records of the snapshot that a commit message refers to were walked to. */
  ghost predicate ReferencesWalked(ev: Evidence, target: Target)
    requires target.CommitTarget?
  {
    forall e :: e in CommitReferenceEdges(target.commit) && e.targetId in ev.nodes ==> e.targetId in Kept(ev, target)
  }

  /** The slice asks about a part of the snapshot. */
  ghost predicate Sliceable(ev: Evidence, target: Target) {
    match target
    case CommitTarget(_) => ReferencesWalked(ev, target)
    case LinesTarget(_, _, _, _, _) => NewLines(ev, target)
  }

  lemma FreshLinesAreNew(ev: Evidence, target: Target)
    requires ClosedEvidence(ev) && target.LinesTarget? && TargetId(target) !in ev.nodes
    ensures Sliceable(ev, target)
  {
  }

  lemma KeptProperties(ev: Evidence, target: Target)
    ensures Elements(ProofSeedIds(target)) <= Kept(ev, target)
    ensures Invariant(ev, Kept(ev, target))
    ensures forall e :: e in ev.edges && ev.edges[e].sourceId in Kept(ev, target) ==>
              ev.edges[e].targetId in Kept(ev, target)
  {
    ClosureIsLeast(ev, Elements(ProofSeedIds(target)));
    forall e | e in ev.edges && ev.edges[e].sourceId in Kept(ev, target)
      ensures ev.edges[e].targetId in Kept(ev, target)
    {
      assert ev.edges[e].targetId in Neighbours(ev, ev.edges[e].sourceId);
    }
  }

  /** `slice` is the part of `full` over the kept ids. */
  ghost predicate NodesAlike(full: map<string, Node>, slice: map<string, Node>, kept: set<string>) {
    && (forall id :: id in slice <==> id in full && id in kept)
    && (forall id :: id in slice ==> slice[id] == full[id])
  }

  ghost predicate EdgesAlike(full: map<string, Edge>, slice: map<string, Edge>, kept: set<string>) {
    && (forall k :: k in slice <==> k in full && full[k].sourceId in kept)
    && (forall k :: k in slice ==> slice[k] == full[k])
    && (forall k :: k in full && full[k].sourceId in kept ==> full[k].targetId in kept)
  }

  ghost predicate ConflictsAlike(ev: Evidence, walked: set<string>, kept: set<string>) {
    forall c :: c in ev.conflicts ==>
      (c.leftNodeId in kept && c.rightNodeId in kept <==> c.leftNodeId in walked && c.rightNodeId in walked)
  }

  /** Attaching to the slice gives the part of attaching to the snapshot over the kept ids. */
  ghost predicate AttachedAlike(ev: Evidence, target: Target) {
    var part := Restrict(ev, Kept(ev, target));
    var kept := KeptWithTarget(ev, target);
    var full := Attached(target, Attachment(ev.nodes, ev.edges));
    var slice := Attached(target, Attachment(part.nodes, part.edges));
    && NodesAlike(full.nodes, slice.nodes, kept)
    && EdgesAlike(full.edges, slice.edges, kept)
    && ConflictsAlike(ev, Kept(ev, target), kept)
  }

  lemma OverlayNodesAlike(
    ev: Evidence, walked: set<string>, id: string, node: Node, stubs: map<string, Node>)
    requires stubs.Keys <= walked
    ensures NodesAlike(
              stubs + ev.nodes[id := node],
              stubs + Restrict(ev, walked).nodes[id := node],
              walked + {id})
  {
  }

  /** Edges added from the target keep the slice alike exactly when no stored edge that they do
      not replace leaves the target from outside what was walked. */
  lemma OverlayEdgesAlike(
    ev: Evidence, walked: set<string>, id: string, added: map<string, Edge>)
    requires forall e :: e in ev.edges && ev.edges[e].sourceId in walked ==> ev.edges[e].targetId in walked
    requires forall k :: k in added ==> added[k].sourceId == id && added[k].targetId in walked + {id}
    ensures EdgesAlike(ev.edges + added, Restrict(ev, walked).edges + added, walked + {id}) <==>
            id in walked || NoOtherEdge(ev, id, added)
  {
    var full, slice := ev.edges + added, Restrict(ev, walked).edges + added;
    if k :| k in ev.edges && ev.edges[k].sourceId == id && k !in added && id !in walked {
      assert k in full && full[k] == ev.edges[k] && k !in slice;
    }
  }

  lemma ConflictsAlikeExactly(ev: Evidence, walked: set<string>, id: string)
    ensures ConflictsAlike(ev, walked, walked + {id}) <==> id in walked || NoKeptConflict(ev, id, walked + {id})
  {
  }

  /** Attaching lines, to the snapshot and to the slice, as an overlay of the same rows. */
  lemma LinesOverlays(ev: Evidence, target: Target, stubs: map<string, Node>, added: map<string, Edge>)
    requires target.LinesTarget?
    requires stubs == PutAbsent(map[], IntroducedNodes(target.introducedBy))
    requires added == PutEdges(map[], IntroducedEdges(target))
    ensures var part := Restrict(ev, Kept(ev, target));
            var node := LinesNode(target);
            && Attached(target, Attachment(ev.nodes, ev.edges))
               == Attachment(stubs + ev.nodes[TargetId(target) := node], ev.edges + added)
            && Attached(target, Attachment(part.nodes, part.edges))
               == Attachment(stubs + part.nodes[TargetId(target) := node], part.edges + added)
  {
    LinesOverlay(ev, target);
    LinesOverlay(Restrict(ev, Kept(ev, target)), target);
  }

  lemma LinesWalked(ev: Evidence, target: Target, stubs: map<string, Node>, added: map<string, Edge>)
    requires target.LinesTarget?
    requires stubs == PutAbsent(map[], IntroducedNodes(target.introducedBy))
    requires added == PutEdges(map[], IntroducedEdges(target))
    ensures stubs.Keys <= Kept(ev, target)
    ensures forall e :: e in ev.edges && ev.edges[e].sourceId in Kept(ev, target) ==>
              ev.edges[e].targetId in Kept(ev, target)
    ensures forall k :: k in added ==>
              added[k].sourceId == TargetId(target) && added[k].targetId in Kept(ev, target)
  {
    KeptProperties(ev, target);
    LinesAdded(target, stubs, added);
  }

  lemma LinesAttachedExactly(ev: Evidence, target: Target)
    requires ClosedEvidence(ev) && target.LinesTarget?
    ensures AttachedAlike(ev, target) <==> NewLines(ev, target)
  {
    var walked, id, node := Kept(ev, target), TargetId(target), LinesNode(target);
    var stubs := PutAbsent(map[], IntroducedNodes(target.introducedBy));
    var added := PutEdges(map[], IntroducedEdges(target));
    LinesWalked(ev, target, stubs, added);
    LinesOverlays(ev, target, stubs, added);
    OverlayNodesAlike(ev, walked, id, node, stubs);
    OverlayEdgesAlike(ev, walked, id, added);
    ConflictsAlikeExactly(ev, walked, id);
  }

  // ----- the references of a commit

  lemma CommitAttachedSuffices(ev: Evidence, target: Target)
    requires ClosedEvidence(ev) && target.CommitTarget? && ReferencesWalked(ev, target)
    ensures AttachedAlike(ev, target)
  {
    var commit, walked := target.commit, Kept(ev, target);
    var part := Restrict(ev, walked);
    var full := InsertAbsent(ev.nodes, commit.id, CommitNode(commit));
    var slice := InsertAbsent(part.nodes, commit.id, CommitNode(commit));
    KeptProperties(ev, target);
    assert commit.id in Elements(ProofSeedIds(target));
    assert KeptWithTarget(ev, target) == walked == walked + {commit.id};
    assert NodesAlike(full, slice, walked);
    PresentDependsOn(full.Keys, slice.Keys, CommitReferenceEdges(commit));
    var edges := PresentReferences(commit, full.Keys);
    PutEdgesMembers(edges);
    PutEdgesOverlay(ev.edges, edges);
    PutEdgesOverlay(part.edges, edges);
    OverlayEdgesAlike(ev, walked, commit.id, PutEdges(map[], edges));
  }

  lemma CommitAttachedNeeds(ev: Evidence, target: Target)
    requires ClosedEvidence(ev) && target.CommitTarget? && AttachedAlike(ev, target)
    ensures ReferencesWalked(ev, target)
  {
    var commit, walked := target.commit, Kept(ev, target);
    var nodes := InsertAbsent(ev.nodes, commit.id, CommitNode(commit));
    var present := PresentReferences(commit, nodes.Keys);
    var full := PutEdges(ev.edges, present);
    KeptProperties(ev, target);
    assert commit.id in Elements(ProofSeedIds(target));
    PutEdgesOverlay(ev.edges, present);
    PutEdgesMembers(present);
    forall e | e in CommitReferenceEdges(commit) && e.targetId in ev.nodes
      ensures e.targetId in walked
    {
      assert e in present;
      var f := full[e.id];
      assert f in present && f.id == e.id;
      ReferenceTargets(commit, commit.references, e, f);
    }
  }

  lemma AttachedExactly(ev: Evidence, target: Target)
    requires ClosedEvidence(ev)
    ensures AttachedAlike(ev, target) <==> Sliceable(ev, target)
  {
    if target.LinesTarget? {
      LinesAttachedExactly(ev, target);
    } else {
      if ReferencesWalked(ev, target) {
        CommitAttachedSuffices(ev, target);
      }
      if AttachedAlike(ev, target) {
        CommitAttachedNeeds(ev, target);
      }
    }
  }

  /** A request lists exactly the attached rows and the conflicts of the evidence. */
  ghost predicate Lists(r: Request, a: Attachment, conflicts: set<Conflict>) {
    && (forall n :: n in r.nodes <==> n.id in a.nodes && a.nodes[n.id] == n)
    && (forall e :: e in r.edges <==> e.id in a.edges && a.edges[e.id] == e)
    && (forall c :: c in r.conflicts <==> c in conflicts)
  }

  ghost predicate Keyed(a: Attachment) {
    KeyedNodes(a.nodes) && KeyedEdges(a.edges)
  }

  lemma AlikeIsSlice(
    r: Request, s: Request, full: Attachment, slice: Attachment, ev: Evidence, walked: set<string>, kept: set<string>)
    requires Lists(r, full, ev.conflicts) && Lists(s, slice, Restrict(ev, walked).conflicts)
    requires Keyed(full) && Keyed(slice)
    requires s == r.(nodes := s.nodes, edges := s.edges, conflicts := s.conflicts) && r.goal.targetId in kept
    requires NodesAlike(full.nodes, slice.nodes, kept) && EdgesAlike(full.edges, slice.edges, kept)
    requires ConflictsAlike(ev, walked, kept)
    ensures SliceOf(r, s, kept)
  {
  }

  lemma SliceIsAlike(
    r: Request, s: Request, full: Attachment, slice: Attachment, ev: Evidence, walked: set<string>, kept: set<string>)
    requires Lists(r, full, ev.conflicts) && Lists(s, slice, Restrict(ev, walked).conflicts)
    requires Keyed(full) && Keyed(slice)
    requires SliceOf(r, s, kept)
    ensures NodesAlike(full.nodes, slice.nodes, kept) && EdgesAlike(full.edges, slice.edges, kept)
    ensures ConflictsAlike(ev, walked, kept)
  {
    forall id
      ensures id in slice.nodes <==> id in full.nodes && id in kept
      ensures id in slice.nodes ==> slice.nodes[id] == full.nodes[id]
    {
      if id in slice.nodes {
        assert slice.nodes[id] in s.nodes;
      }
      if id in full.nodes {
        assert full.nodes[id] in r.nodes;
      }
    }
    forall k
      ensures k in slice.edges <==> k in full.edges && full.edges[k].sourceId in kept
      ensures k in slice.edges ==> slice.edges[k] == full.edges[k]
      ensures k in full.edges && full.edges[k].sourceId in kept ==> full.edges[k].targetId in kept
    {
      if k in slice.edges {
        assert slice.edges[k] in s.edges;
      }
      if k in full.edges {
        assert full.edges[k] in r.edges;
      }
    }
  }

  lemma RequestLists(ev: Evidence, target: Target, snapshotId: string, query: string)
    requires ClosedEvidence(ev)
    ensures var a := Attached(target, Attachment(ev.nodes, ev.edges));
            Lists(BuildRequest(ev, target, snapshotId, query), a, ev.conflicts) && Keyed(a)
  {
    AttachedMembers(ev, target, snapshotId, query);
    AttachedClosed(ev, target);
  }

  lemma RequestIsSlice(ev: Evidence, target: Target, snapshotId: string, query: string)
    requires ClosedEvidence(ev)
    ensures SliceOf(
              BuildRequest(ev, target, snapshotId, query),
              SliceRequest(ev, target, snapshotId, query), KeptWithTarget(ev, target))
            <==> AttachedAlike(ev, target)
  {
    var walked, kept := Kept(ev, target), KeptWithTarget(ev, target);
    var part := Restrict(ev, walked);
    var r, s := BuildRequest(ev, target, snapshotId, query), BuildRequest(part, target, snapshotId, query);
    var full := Attached(target, Attachment(ev.nodes, ev.edges));
    var slice := Attached(target, Attachment(part.nodes, part.edges));
    KeptProperties(ev, target);
    RestrictClosed(ev, walked);
    RequestLists(ev, target, snapshotId, query);
    RequestLists(part, target, snapshotId, query);
    if AttachedAlike(ev, target) {
      AlikeIsSlice(r, s, full, slice, ev, walked, kept);
    } else if SliceOf(r, s, kept) {
      SliceIsAlike(r, s, full, slice, ev, walked, kept);
    }
  }

  /** The request over the slice is the part of the request over the snapshot about the kept
      ids, exactly when the target is one a slice can be cut for. */
  lemma SliceableExactly(ev: Evidence, target: Target, snapshotId: string, query: string)
    requires ClosedEvidence(ev)
    ensures SliceOf(
              BuildRequest(ev, target, snapshotId, query),
              SliceRequest(ev, target, snapshotId, query), KeptWithTarget(ev, target))
            <==> Sliceable(ev, target)
  {
    RequestIsSlice(ev, target, snapshotId, query);
    AttachedExactly(ev, target);
  }

  // ----- the method

  /** A slice that was loaded is the current snapshot's restriction, in key order. */
  lemma {:induction false} LoadedRows(db: Database, target: Target, slice: GraphSlice)
    requires ProofSlice(db, ProofSeedIds(target), WHY_LIMITS) == Ok(Some(slice))
    ensures db.current == Some(slice.snapshotId)
    ensures var part := Restrict(EvidenceOf(db, slice.snapshotId), Kept(EvidenceOf(db, slice.snapshotId), target));
            && slice.nodes == Values(part.nodes)
            && slice.edges == Values(part.edges)
            && slice.conflicts == SortedConflicts(part.conflicts)
  {
    var sid := db.current.value;
    var part := Restrict(EvidenceOf(db, sid), Kept(EvidenceOf(db, sid), target));
    BoundedRows(sid, part, SourcesOf(db, sid), WHY_LIMITS, slice);
  }

  lemma BoundedRows(sid: string, ev: Evidence, sources: seq<SourceState>, limits: Limits, slice: GraphSlice)
    requires Bounded(sid, ev, sources, limits) == Ok(Some(slice))
    ensures slice == GraphSlice(sid, Values(ev.nodes), Values(ev.edges), SortedConflicts(ev.conflicts), sources)
  {
  }

  lemma LoadedSlice(db: Database, target: Target, slice: GraphSlice)
    requires CommittedValid(db)
    requires ProofSlice(db, ProofSeedIds(target), WHY_LIMITS) == Ok(Some(slice))
    ensures db.current == Some(slice.snapshotId)
    ensures var part := Restrict(EvidenceOf(db, slice.snapshotId), Kept(EvidenceOf(db, slice.snapshotId), target));
            && NodeMap(slice.nodes) == part.nodes
            && IndexEdges(slice.edges) == part.edges
            && slice.conflicts == SortedConflicts(part.conflicts)
  {
    LoadedRows(db, target, slice);
    var ev := EvidenceOf(db, slice.snapshotId);
    var part := Restrict(ev, Kept(ev, target));
    CurrentEvidenceClosed(db);
    NodesIndexed(part.nodes);
    EdgesIndexed(part.edges);
  }

  lemma CurrentEvidenceClosed(db: Database)
    requires CommittedValid(db) && db.current.Some?
    ensures ClosedEvidence(EvidenceOf(db, db.current.value))
  {
    StoredEvidenceClosed(db, db.current.value);
  }

  /** The request assembled from loaded rows. */
  function RequestFrom(slice: GraphSlice, attachment: Attachment, targetId: string, query: string): Request {
    Request(
      1, QueryId(slice.snapshotId, query), slice.snapshotId,
      Goal(targetId, [Decision, WorkItem]),
      Values(attachment.nodes), Values(attachment.edges), slice.conflicts)
  }

  lemma NoSliceNoSnapshot(db: Database, target: Target)
    requires ProofSlice(db, ProofSeedIds(target), WHY_LIMITS) == Ok(None)
    ensures db.current.None?
  {
  }

  method RequestOver(slice: GraphSlice, target: Target, query: string) returns (request: Request)
    ensures request == RequestFrom(
                         slice, Attached(target, Attachment(NodeMap(slice.nodes), IndexEdges(slice.edges))),
                         TargetId(target), query)
  {
    var attachment, targetId := AttachTarget(target, NodeMap(slice.nodes), IndexEdges(slice.edges));
    request := RequestFrom(slice, attachment, targetId, query);
  }

  lemma LoadedRequest(db: Database, target: Target, slice: GraphSlice, query: string)
    requires CommittedValid(db)
    requires ProofSlice(db, ProofSeedIds(target), WHY_LIMITS) == Ok(Some(slice))
    ensures CurrentRequest(db, target, query)
            == Some(RequestFrom(
                      slice, Attached(target, Attachment(NodeMap(slice.nodes), IndexEdges(slice.edges))),
                      TargetId(target), query))
  {
    LoadedSlice(db, target, slice);
  }

  method LoadProofEvidence(store: EvidenceStore, target: Target) returns (r: Result<GraphSlice, WhyError>)
    ensures r.Ok? ==> ProofSlice(store.committed, ProofSeedIds(target), WHY_LIMITS) == Ok(Some(r.value))
    ensures r == Err(NoSnapshot) ==> ProofSlice(store.committed, ProofSeedIds(target), WHY_LIMITS) == Ok(None)
    ensures r.Err? && r.error.StoreFailed? ==>
              ProofSlice(store.committed, ProofSeedIds(target), WHY_LIMITS) == Err(r.error.error)
  {
    var loaded := store.LoadCurrentProofSlice(ProofSeedIds(target), WHY_LIMITS);
    if loaded.Err? {
      return Err(StoreFailed(loaded.error));
    }
    if loaded.value.None? {
      return Err(NoSnapshot);
    }
    r := Ok(loaded.value.value);
  }

  /** Loads the slice of the current snapshot and builds the request over it. */
  method PrepareRequest(store: EvidenceStore, target: Target, query: string)
    returns (r: Result<Request, WhyError>)
    requires CommittedValid(store.committed)
    ensures r.Ok? ==> CurrentRequest(store.committed, target, query) == Some(r.value)
    ensures r == Err(NoSnapshot) ==> store.committed.current.None?
    ensures r.Err? && r.error.StoreFailed? ==>
              ProofSlice(store.committed, ProofSeedIds(target), Limits(4_000, 16_384, 4_096)) == Err(r.error.error)
  {
    var loaded := LoadProofEvidence(store, target);
    if loaded.Err? {
      if loaded.error.NoSnapshot? {
        NoSliceNoSnapshot(store.committed, target);
      }
      return Err(loaded.error);
    }
    var slice := loaded.value;
    LoadedRequest(store.committed, target, slice, query);
    var request := RequestOver(slice, target, query);
    r := Ok(request);
  }
}
