/** What `why` loses by asking over a slice, and exactly when it answers as it would over the
    whole snapshot. */
module Losses {
  import opened Sequences
  import opened Model
  import opened Proof
  import opened Traversal
  import opened Evaluator
  import opened Paths
  import opened Meaning
  import opened Verdicts
  import opened Chains
  import opened Removal
  import opened Parts
  import opened Reachable
  import opened Targets
  import opened References
  import opened Why
  import Rules

  /** The edges of the whole request that leave a loaded record and are not in the slice: the
      references of a commit to stored records that were not walked to, or what is stored about a
      line target that was not walked to. */
  ghost function LostEdges(ev: Evidence, target: Target): set<string> {
    match target
    case CommitTarget(commit) =>
      set e | e in CommitReferenceEdges(commit) && Unwalked(ev, target, e) :: e.id
    case LinesTarget(_, _, _, _, _) =>
      set k | k in ev.edges && StoredAtTarget(ev, target, k) && k !in PutEdges(map[], IntroducedEdges(target))
  }

  ghost predicate Unwalked(ev: Evidence, target: Target, e: Edge) {
    e.targetId in ev.nodes && e.targetId !in Kept(ev, target)
  }

  ghost predicate StoredAtTarget(ev: Evidence, target: Target, k: string)
    requires k in ev.edges
  {
    TargetId(target) !in Kept(ev, target) && ev.edges[k].sourceId == TargetId(target)
  }

  /** A stored edge under the id of a reference has the endpoints of that reference, as ids are
      collision-free names of their material. */
  ghost predicate ReferencesNamed(ev: Evidence, target: Target) {
    target.CommitTarget? ==>
      forall e :: e in CommitReferenceEdges(target.commit) && e.id in ev.edges ==>
        ev.edges[e.id].sourceId == e.sourceId && ev.edges[e.id].targetId == e.targetId
  }

  ghost predicate NoNul(s: string) {
    '\0' !in s
  }

  /** The id is the name of the edge's own material. */
  ghost predicate OwnName(e: Edge) {
    && e.id == "edge:" + Digest(Material(e.kind, e.sourceId, e.targetId, e.origin.locator))
    && NoNul(e.sourceId) && NoNul(e.targetId)
  }

  lemma KindNameHasNoNul(kind: EdgeKind)
    ensures NoNul(KindName(kind))
  {
  }

  lemma KindNamesDiffer(a: EdgeKind, b: EdgeKind)
    ensures KindName(a) == KindName(b) <==> a == b
  {
    var x, y := KindName(a), KindName(b);
    assert x == y ==> |x| == |y| && x[0] == y[0] && x[2] == y[2];
  }

  /** What precedes the first separator is determined by the whole. */
  lemma FirstField(a: string, x: string, b: string, y: string)
    requires NoNul(a) && NoNul(b) && a + (NUL + x) == b + (NUL + y)
    ensures a == b && x == y
  {
    var s := a + (NUL + x);
    assert s[|a|] == '\0' && s[|b|] == '\0';
    assert forall i :: 0 <= i < |a| ==> s[i] == a[i] && a[i] in a;
    assert forall i :: 0 <= i < |b| ==> s[i] == b[i] && b[i] in b;
    assert |a| == |b|;
    assert a == s[..|a|] && b == s[..|b|];
    assert x == s[|a| + 1..] && y == s[|b| + 1..];
  }

  /** Questions about different snapshots, or different questions, have different ids. */
  lemma QueryIdsDiffer(snapshotId: string, query: string, otherId: string, otherQuery: string)
    requires NoNul(snapshotId) && NoNul(otherId)
    ensures QueryId(snapshotId, query) == QueryId(otherId, otherQuery) <==> snapshotId == otherId && query == otherQuery
  {
    if QueryId(snapshotId, query) == QueryId(otherId, otherQuery) {
      var prefix := "query:" + ("rationale-query-v1" + NUL);
      QueryIdParts(prefix, snapshotId, query);
      QueryIdParts(prefix, otherId, otherQuery);
      PrefixCancels(prefix, snapshotId + (NUL + query), otherId + (NUL + otherQuery));
      FirstField(snapshotId, query, otherId, otherQuery);
    }
  }

  lemma QueryIdParts(prefix: string, snapshotId: string, query: string)
    requires prefix == "query:" + ("rationale-query-v1" + NUL)
    ensures QueryId(snapshotId, query) == prefix + (snapshotId + (NUL + query))
  {
    var tag := "rationale-query-v1" + NUL;
    assert tag + snapshotId + NUL + query == tag + (snapshotId + (NUL + query));
    Regroup("query:", tag, snapshotId + (NUL + query));
  }

  lemma MaterialFields(kind: EdgeKind, source: string, target: string, locator: string)
    ensures Material(kind, source, target, locator)
            == KindName(kind) + (NUL + (source + (NUL + (target + (NUL + locator)))))
  {
    var name := KindName(kind);
    assert name + (NUL + (source + (NUL + (target + (NUL + locator)))))
           == name + NUL + source + NUL + target + NUL + locator;
  }

  lemma SameNameSameEnds(e: Edge, f: Edge)
    requires OwnName(e) && OwnName(f) && e.id == f.id
    ensures e.kind == f.kind && e.sourceId == f.sourceId && e.targetId == f.targetId
    ensures e.origin.locator == f.origin.locator
  {
    var a, b := NUL + e.origin.locator, NUL + f.origin.locator;
    PrefixCancels(
      "edge:", Material(e.kind, e.sourceId, e.targetId, e.origin.locator),
      Material(f.kind, f.sourceId, f.targetId, f.origin.locator));
    MaterialFields(e.kind, e.sourceId, e.targetId, e.origin.locator);
    MaterialFields(f.kind, f.sourceId, f.targetId, f.origin.locator);
    KindNameHasNoNul(e.kind);
    KindNameHasNoNul(f.kind);
    FirstField(
      KindName(e.kind), e.sourceId + (NUL + (e.targetId + a)), KindName(f.kind), f.sourceId + (NUL + (f.targetId + b)));
    FirstField(e.sourceId, e.targetId + a, f.sourceId, f.targetId + b);
    FirstField(e.targetId, e.origin.locator, f.targetId, f.origin.locator);
    KindNamesDiffer(e.kind, f.kind);
  }

  /** Names are collision-free when they are formed as the engine forms them, from ids without
      the separator. */
  lemma FormedNames(ev: Evidence, target: Target)
    requires ClosedEvidence(ev) && target.CommitTarget?
    requires forall e :: e in CommitReferenceEdges(target.commit) ==>
               OwnName(e) && (e.id in ev.edges ==> OwnName(ev.edges[e.id]))
    ensures ReferencesNamed(ev, target)
  {
    forall e | e in CommitReferenceEdges(target.commit) && e.id in ev.edges
      ensures ev.edges[e.id].sourceId == e.sourceId && ev.edges[e.id].targetId == e.targetId
    {
      SameNameSameEnds(e, ev.edges[e.id]);
    }
  }

  // ----- attaching to the slice

  /** `slice` has the edges of `full` that leave a kept record and are not lost. */
  ghost predicate EdgesBut(full: map<string, Edge>, slice: map<string, Edge>, kept: set<string>, lost: set<string>) {
    && (forall k :: k in slice <==> k in full && full[k].sourceId in kept && k !in lost)
    && (forall k :: k in slice ==> slice[k] == full[k])
    && (forall k :: k in full && full[k].sourceId in kept && k !in lost ==> full[k].targetId in kept)
  }

  ghost predicate AttachedBut(ev: Evidence, target: Target) {
    var part := Restrict(ev, Kept(ev, target));
    var full := Attached(target, Attachment(ev.nodes, ev.edges));
    var slice := Attached(target, Attachment(part.nodes, part.edges));
    && NodesAlike(full.nodes, slice.nodes, KeptWithTarget(ev, target))
    && EdgesBut(full.edges, slice.edges, KeptWithTarget(ev, target), LostEdges(ev, target))
  }

  lemma OverlayBut(ev: Evidence, walked: set<string>, id: string, added: map<string, Edge>, lost: set<string>)
    requires forall e :: e in ev.edges && ev.edges[e].sourceId in walked ==> ev.edges[e].targetId in walked
    requires forall k :: k in added ==> added[k].sourceId == id && added[k].targetId in walked
    requires forall k :: k in lost <==>
               k in ev.edges && id !in walked && ev.edges[k].sourceId == id && k !in added
    ensures EdgesBut(ev.edges + added, Restrict(ev, walked).edges + added, walked + {id}, lost)
  {
  }

  lemma LinesBut(ev: Evidence, target: Target)
    requires ClosedEvidence(ev) && target.LinesTarget?
    ensures AttachedBut(ev, target)
  {
    var walked, id, node := Kept(ev, target), TargetId(target), LinesNode(target);
    var stubs := PutAbsent(map[], IntroducedNodes(target.introducedBy));
    var added := PutEdges(map[], IntroducedEdges(target));
    LinesWalked(ev, target, stubs, added);
    LinesOverlays(ev, target, stubs, added);
    OverlayNodesAlike(ev, walked, id, node, stubs);
    OverlayBut(ev, walked, id, added, LostEdges(ev, target));
  }

  /** The references attached over the snapshot and over the slice, by edge id. */
  lemma ReferencesBut(ev: Evidence, target: Target, full: map<string, Edge>, slice: map<string, Edge>)
    requires target.CommitTarget?
    requires var commit, walked := target.commit, Kept(ev, target);
             && commit.id in walked
             && full == PutEdges(map[], PresentReferences(commit, ev.nodes.Keys + {commit.id}))
             && slice == PutEdges(map[], PresentReferences(commit, (ev.nodes.Keys * walked) + {commit.id}))
    ensures forall k :: k in slice <==> k in full && k !in LostEdges(ev, target)
    ensures forall k :: k in slice ==> slice[k] == full[k] && full[k].targetId in Kept(ev, target)
    ensures forall k :: k in full ==> full[k].sourceId == target.commit.id
    ensures LostEdges(ev, target) <= full.Keys
  {
    var commit, walked := target.commit, Kept(ev, target);
    var whole := PresentReferences(commit, ev.nodes.Keys + {commit.id});
    var part := PresentReferences(commit, (ev.nodes.Keys * walked) + {commit.id});
    PutEdgesMembers(whole);
    PutEdgesMembers(part);
    forall k
      ensures k in slice <==> k in full && k !in LostEdges(ev, target)
      ensures k in slice ==> slice[k] == full[k]
    {
      if k in slice {
        SameReference(commit, slice[k], full[k]);
        if k in LostEdges(ev, target) {
          var e :| e in CommitReferenceEdges(commit) && Unwalked(ev, target, e) && e.id == k;
          SameReference(commit, slice[k], e);
        }
      }
      if k in full && k !in LostEdges(ev, target) {
        assert full[k] in part;
      }
    }
  }

  lemma CommitOverlayBut(
    ev: Evidence, walked: set<string>, id: string, full: map<string, Edge>, slice: map<string, Edge>, lost: set<string>)
    requires id in walked
    requires forall e :: e in ev.edges && ev.edges[e].sourceId in walked ==> ev.edges[e].targetId in walked
    requires forall k :: k in slice <==> k in full && k !in lost
    requires forall k :: k in slice ==> slice[k] == full[k] && full[k].targetId in walked
    requires forall k :: k in full ==> full[k].sourceId == id
    requires lost <= full.Keys
    requires forall k :: k in lost && k in ev.edges ==> ev.edges[k].sourceId !in walked
    ensures EdgesBut(ev.edges + full, Restrict(ev, walked).edges + slice, walked, lost)
  {
  }

  /** The records a commit is attached to, over the snapshot and over the slice. */
  lemma CommitNodesBut(ev: Evidence, walked: set<string>, commit: Commit)
    requires commit.id in walked
    ensures var full := InsertAbsent(ev.nodes, commit.id, CommitNode(commit));
            var slice := InsertAbsent(Restrict(ev, walked).nodes, commit.id, CommitNode(commit));
            && NodesAlike(full, slice, walked)
            && full.Keys == ev.nodes.Keys + {commit.id}
            && slice.Keys == (ev.nodes.Keys * walked) + {commit.id}
  {
  }

  /** No stored edge under a lost id leaves a record that was walked to. */
  lemma LostNotStored(ev: Evidence, target: Target, k: string)
    requires target.CommitTarget? && ReferencesNamed(ev, target)
    requires k in LostEdges(ev, target) && k in ev.edges
    ensures ev.edges[k].sourceId !in Kept(ev, target)
  {
    KeptProperties(ev, target);
  }

  lemma CommitEdgesBut(ev: Evidence, target: Target, whole: seq<Edge>, some: seq<Edge>)
    requires ClosedEvidence(ev) && target.CommitTarget? && ReferencesNamed(ev, target)
    requires target.commit.id in Kept(ev, target)
    requires whole == PresentReferences(target.commit, ev.nodes.Keys + {target.commit.id})
    requires some == PresentReferences(target.commit, (ev.nodes.Keys * Kept(ev, target)) + {target.commit.id})
    ensures EdgesBut(
              PutEdges(ev.edges, whole), PutEdges(Restrict(ev, Kept(ev, target)).edges, some),
              Kept(ev, target), LostEdges(ev, target))
  {
    var walked, lost := Kept(ev, target), LostEdges(ev, target);
    var full, slice := PutEdges(map[], whole), PutEdges(map[], some);
    ReferencesBut(ev, target, full, slice);
    PutEdgesOverlay(ev.edges, whole);
    PutEdgesOverlay(Restrict(ev, walked).edges, some);
    forall k | k in lost && k in ev.edges
      ensures ev.edges[k].sourceId !in walked
    {
      LostNotStored(ev, target, k);
    }
    assert forall e :: e in ev.edges && ev.edges[e].sourceId in walked ==> ev.edges[e].targetId in walked by {
      KeptProperties(ev, target);
    }
    CommitOverlayBut(ev, walked, target.commit.id, full, slice, lost);
  }

  lemma CommitBut(ev: Evidence, target: Target)
    requires ClosedEvidence(ev) && target.CommitTarget? && ReferencesNamed(ev, target)
    ensures AttachedBut(ev, target)
  {
    var commit, walked := target.commit, Kept(ev, target);
    assert Elements(ProofSeedIds(target)) <= walked by {
      KeptProperties(ev, target);
    }
    assert KeptWithTarget(ev, target) == walked;
    var full := InsertAbsent(ev.nodes, commit.id, CommitNode(commit));
    var slice := InsertAbsent(Restrict(ev, walked).nodes, commit.id, CommitNode(commit));
    CommitNodesBut(ev, walked, commit);
    CommitEdgesBut(ev, target, PresentReferences(commit, full.Keys), PresentReferences(commit, slice.Keys));
  }

  lemma AttachedButLost(ev: Evidence, target: Target)
    requires ClosedEvidence(ev) && ReferencesNamed(ev, target)
    ensures AttachedBut(ev, target)
  {
    if target.LinesTarget? {
      LinesBut(ev, target);
    } else {
      CommitBut(ev, target);
    }
  }

  // ----- the request over the slice

  /** `s` is what `r` says about the ids in `kept`, but for the lost edges and the conflicts of
      records that were not walked to. */
  ghost predicate SliceBut(r: Request, s: Request, kept: set<string>, lost: set<string>, walked: set<string>) {
    && s == r.(nodes := s.nodes, edges := s.edges, conflicts := s.conflicts)
    && (forall n :: n in s.nodes <==> n in r.nodes && n.id in kept)
    && (forall e :: e in s.edges <==> e in r.edges && e.sourceId in kept && e.id !in lost)
    && (forall e :: e in r.edges && e.sourceId in kept && e.id !in lost ==> e.targetId in kept)
    && (forall c :: c in s.conflicts <==>
                    c in r.conflicts && c.leftNodeId in walked && c.rightNodeId in walked)
    && r.goal.targetId in kept
  }

  lemma ListedBut(
    r: Request, s: Request, full: Attachment, slice: Attachment, ev: Evidence, walked: set<string>,
    kept: set<string>, lost: set<string>)
    requires Lists(r, full, ev.conflicts) && Lists(s, slice, Restrict(ev, walked).conflicts)
    requires Keyed(full) && Keyed(slice)
    requires s == r.(nodes := s.nodes, edges := s.edges, conflicts := s.conflicts) && r.goal.targetId in kept
    requires NodesAlike(full.nodes, slice.nodes, kept) && EdgesBut(full.edges, slice.edges, kept, lost)
    ensures SliceBut(r, s, kept, lost, walked)
  {
  }

  lemma RequestBut(ev: Evidence, target: Target, snapshotId: string, query: string)
    requires ClosedEvidence(ev) && ReferencesNamed(ev, target)
    ensures SliceBut(
              BuildRequest(ev, target, snapshotId, query), SliceRequest(ev, target, snapshotId, query),
              KeptWithTarget(ev, target), LostEdges(ev, target), Kept(ev, target))
  {
    var walked, kept := Kept(ev, target), KeptWithTarget(ev, target);
    var part := Restrict(ev, walked);
    var r, s := BuildRequest(ev, target, snapshotId, query), BuildRequest(part, target, snapshotId, query);
    var full := Attached(target, Attachment(ev.nodes, ev.edges));
    var slice := Attached(target, Attachment(part.nodes, part.edges));
    assert ClosedEvidence(part) by {
      KeptProperties(ev, target);
      RestrictClosed(ev, walked);
    }
    RequestLists(ev, target, snapshotId, query);
    RequestLists(part, target, snapshotId, query);
    AttachedButLost(ev, target);
    ListedBut(r, s, full, slice, ev, walked, kept, LostEdges(ev, target));
  }

  lemma AttachedSizes(ev: Evidence, target: Target)
    requires ClosedEvidence(ev) && ReferencesNamed(ev, target)
    ensures var part := Restrict(ev, Kept(ev, target));
            var full := Attached(target, Attachment(ev.nodes, ev.edges));
            var slice := Attached(target, Attachment(part.nodes, part.edges));
            |slice.nodes.Keys| <= |full.nodes.Keys| && |slice.edges.Keys| <= |full.edges.Keys|
  {
    AttachedButLost(ev, target);
    var part := Restrict(ev, Kept(ev, target));
    var full := Attached(target, Attachment(ev.nodes, ev.edges));
    var slice := Attached(target, Attachment(part.nodes, part.edges));
    SubsetCard(slice.nodes.Keys, full.nodes.Keys);
    SubsetCard(slice.edges.Keys, full.edges.Keys);
  }

  lemma SliceFits(ev: Evidence, target: Target, snapshotId: string, query: string)
    requires ClosedEvidence(ev) && ReferencesNamed(ev, target)
    ensures var full := BuildRequest(ev, target, snapshotId, query);
            var slice := SliceRequest(ev, target, snapshotId, query);
            && (WellFormed(full) <==> |full.nodes| <= Rules.MAX_NODES && |full.edges| <= Rules.MAX_EDGES)
            && (WellFormed(slice) <==> |slice.nodes| <= Rules.MAX_NODES && |slice.edges| <= Rules.MAX_EDGES)
            && |slice.nodes| <= |full.nodes| && |slice.edges| <= |full.edges|
  {
    var part := Restrict(ev, Kept(ev, target));
    assert ClosedEvidence(part) by {
      KeptProperties(ev, target);
      RestrictClosed(ev, Kept(ev, target));
    }
    RequestOverClosed(ev, target, snapshotId, query);
    RequestOverClosed(part, target, snapshotId, query);
    AttachedSizes(ev, target);
  }

  lemma RequestIsPart(ev: Evidence, target: Target, snapshotId: string, query: string)
    requires ClosedEvidence(ev) && ReferencesNamed(ev, target)
    requires WellFormed(BuildRequest(ev, target, snapshotId, query))
    ensures PartOf(BuildRequest(ev, target, snapshotId, query), SliceRequest(ev, target, snapshotId, query))
  {
    RequestBut(ev, target, snapshotId, query);
    SliceFits(ev, target, snapshotId, query);
  }

  // ----- what depends on a lost edge

  ghost predicate Avoids(p: Path, lost: set<string>) {
    forall id :: id in p.edgeIds ==> id !in lost
  }

  lemma {:induction false} AvoidingHop(
    r: Request, s: Request, kept: set<string>, lost: set<string>, walked: set<string>, p: Path, i: nat)
    requires PartOf(r, s) && SliceBut(r, s, kept, lost, walked)
    requires SimplePath(KernelView(r), r.goal.targetId, p) && i <= |p.edgeIds| && Avoids(p, lost)
    ensures p.nodeIds[i] in kept
    ensures i < |p.edgeIds| ==> exists e :: e in s.edges && e.id == p.edgeIds[i]
  {
    if i > 0 {
      AvoidingHop(r, s, kept, lost, walked, p, i - 1);
      var e := HopLink(r, p, i - 1);
    }
    if i < |p.edgeIds| {
      var e := HopLink(r, p, i);
      assert e in s.edges;
    }
  }

  /** The slice has the edges of a path of the snapshot exactly when none of them is lost. */
  lemma AvoidingLost(
    r: Request, s: Request, kept: set<string>, lost: set<string>, walked: set<string>, p: Path)
    requires PartOf(r, s) && SliceBut(r, s, kept, lost, walked)
    requires SimplePath(KernelView(r), r.goal.targetId, p)
    ensures UsesOnly(s.edges, p) <==> Avoids(p, lost)
  {
    if Avoids(p, lost) {
      forall id | id in p.edgeIds
        ensures exists e :: e in s.edges && e.id == id
      {
        var i :| 0 <= i < |p.edgeIds| && p.edgeIds[i] == id;
        AvoidingHop(r, s, kept, lost, walked, p, i);
      }
    }
  }

  /** Reached without a lost edge, or reached in the slice through a record that the snapshot
      supersedes. */
  ghost predicate StillEngaged(full: Request, slice: Request, lost: set<string>, id: string) {
    exists p: Path :: Last(p) == id &&
      (|| (SimplePath(KernelView(full), full.goal.targetId, p) && Avoids(p, lost))
       || (SimplePath(KernelView(slice), full.goal.targetId, p) && !Stands(full, p)))
  }

  lemma StillEngagedMeaning(
    r: Request, s: Request, kept: set<string>, lost: set<string>, walked: set<string>, id: string)
    requires PartOf(r, s) && SliceBut(r, s, kept, lost, walked) && Engaged(r, id)
    ensures Engaged(s, id) <==> StillEngaged(r, s, lost, id)
  {
    EngagedByPath(s, id);
    PartActive(r, s, id);
    if Engaged(s, id) {
      var p: Path :| SimplePath(KernelView(s), r.goal.targetId, p) && Last(p) == id;
      PathsOfPart(r, s, p);
      if Stands(r, p) {
        AvoidingLost(r, s, kept, lost, walked, p);
      }
    }
    if StillEngaged(r, s, lost, id) {
      var p: Path :| Last(p) == id &&
        (|| (SimplePath(KernelView(r), r.goal.targetId, p) && Avoids(p, lost))
         || (SimplePath(KernelView(s), r.goal.targetId, p) && !Stands(r, p)));
      PathsOfPart(r, s, p);
      if SimplePath(KernelView(r), r.goal.targetId, p) && Avoids(p, lost) {
        AvoidingLost(r, s, kept, lost, walked, p);
      }
      PathEndsInPart(s, p);
    }
  }

  // ----- what is lost

  /** A conflict of a line target that was not walked to: the store does not load it. */
  ghost predicate Tied(ev: Evidence, target: Target, c: Conflict) {
    TargetId(target) !in Kept(ev, target) && (c.leftNodeId == TargetId(target) || c.rightNodeId == TargetId(target))
  }

  /** A conflict of the snapshot that the slice has too. */
  ghost predicate ConflictKept(ev: Evidence, target: Target, full: Request, slice: Request, c: Conflict) {
    && !Tied(ev, target, c)
    && StillEngaged(full, slice, LostEdges(ev, target), c.leftNodeId)
    && StillEngaged(full, slice, LostEdges(ev, target), c.rightNodeId)
  }

  /** The record of a line target is no decision. */
  ghost predicate CodeAtTarget(target: Target, r: Request) {
    target.LinesTarget? ==> forall n :: n in r.nodes && n.id == TargetId(target) ==> n.kind == CodeTarget
  }

  lemma CodeByRows(target: Target, r: Request, a: Attachment)
    requires forall n :: n in r.nodes <==> n.id in a.nodes && a.nodes[n.id] == n
    requires target.LinesTarget? ==> TargetId(target) in a.nodes && a.nodes[TargetId(target)].kind == CodeTarget
    ensures CodeAtTarget(target, r)
  {
  }

  lemma LinesRecord(ev: Evidence, target: Target)
    requires target.LinesTarget?
    ensures var a := Attached(target, Attachment(ev.nodes, ev.edges));
            TargetId(target) in a.nodes && a.nodes[TargetId(target)] == LinesNode(target)
  {
    LinesOverlay(ev, target);
  }

  lemma TargetIsCode(ev: Evidence, target: Target, snapshotId: string, query: string)
    requires ClosedEvidence(ev)
    ensures CodeAtTarget(target, BuildRequest(ev, target, snapshotId, query))
  {
    AttachedMembers(ev, target, snapshotId, query);
    if target.LinesTarget? {
      LinesRecord(ev, target);
    }
    CodeByRows(
      target, BuildRequest(ev, target, snapshotId, query), Attached(target, Attachment(ev.nodes, ev.edges)));
  }

  lemma TargetSeeded(ev: Evidence, target: Target)
    requires target.CommitTarget?
    ensures TargetId(target) in Kept(ev, target)
  {
    KeptProperties(ev, target);
    assert target.commit.id in Elements(ProofSeedIds(target));
  }

  lemma TiedIsLost(ev: Evidence, target: Target, r: Request, s: Request, c: Conflict)
    requires Tied(ev, target, c) && CodeAtTarget(target, r)
    requires SliceBut(r, s, KeptWithTarget(ev, target), LostEdges(ev, target), Kept(ev, target))
    ensures !ConflictHolds(s, c)
  {
    if target.CommitTarget? {
      TargetSeeded(ev, target);
    }
  }

  lemma EngagedIsKept(r: Request, s: Request, kept: set<string>, lost: set<string>, walked: set<string>, id: string)
    requires SliceBut(r, s, kept, lost, walked) && Engaged(s, id)
    ensures id in kept && HasNode(s, id)
  {
  }

  lemma UntiedIsKept(ev: Evidence, target: Target, r: Request, s: Request, c: Conflict)
    requires PartOf(r, s) && SliceBut(r, s, KeptWithTarget(ev, target), LostEdges(ev, target), Kept(ev, target))
    requires ConflictHolds(r, c) && !Tied(ev, target, c)
    requires Engaged(s, c.leftNodeId) && Engaged(s, c.rightNodeId)
    ensures ConflictHolds(s, c)
  {
    var walked, kept, lost := Kept(ev, target), KeptWithTarget(ev, target), LostEdges(ev, target);
    EngagedIsKept(r, s, kept, lost, walked, c.leftNodeId);
    EngagedIsKept(r, s, kept, lost, walked, c.rightNodeId);
    DerivedInPart(r, s, c);
  }

  lemma ConflictKeptExactly(ev: Evidence, target: Target, r: Request, s: Request, c: Conflict)
    requires CodeAtTarget(target, r)
    requires PartOf(r, s) && SliceBut(r, s, KeptWithTarget(ev, target), LostEdges(ev, target), Kept(ev, target))
    requires ConflictHolds(r, c)
    ensures ConflictHolds(s, c) <==> ConflictKept(ev, target, r, s, c)
  {
    var walked, kept, lost := Kept(ev, target), KeptWithTarget(ev, target), LostEdges(ev, target);
    if Tied(ev, target, c) {
      TiedIsLost(ev, target, r, s, c);
    } else {
      StillEngagedMeaning(r, s, kept, lost, walked, c.leftNodeId);
      StillEngagedMeaning(r, s, kept, lost, walked, c.rightNodeId);
      if Engaged(s, c.leftNodeId) && Engaged(s, c.rightNodeId) {
        UntiedIsKept(ev, target, r, s, c);
      }
    }
  }

  lemma AnchorKeptExactly(
    r: Request, s: Request, kept: set<string>, lost: set<string>, walked: set<string>, p: Path)
    requires PartOf(r, s) && SliceBut(r, s, kept, lost, walked) && AnchorPath(r, p)
    ensures AnchorPath(s, p) <==> Avoids(p, lost)
    ensures UsesOnly(s.edges, p) <==> Avoids(p, lost)
  {
    AvoidingLost(r, s, kept, lost, walked, p);
    AnchorsOfPart(r, s, p);
    if AnchorPath(s, p) {
      PathUsesEdges(s, p);
    }
  }

  /** Exactly what asking over the slice loses: the paths to anchors that use a lost edge, and the
      conflicts a side of which is reached only by one, or which the store does not load. */
  lemma WhyLosesExactly(ev: Evidence, target: Target, snapshotId: string, query: string)
    requires ClosedEvidence(ev) && ReferencesNamed(ev, target)
    requires WellFormed(BuildRequest(ev, target, snapshotId, query))
    ensures var full := BuildRequest(ev, target, snapshotId, query);
            var slice := SliceRequest(ev, target, snapshotId, query);
            && PartOf(full, slice)
            && (forall p: Path :: AnchorPath(full, p) ==>
                  (AnchorPath(slice, p) <==> Avoids(p, LostEdges(ev, target)))
                  && (UsesOnly(slice.edges, p) <==> Avoids(p, LostEdges(ev, target))))
            && (forall c :: ConflictHolds(full, c) ==>
                  (ConflictHolds(slice, c) <==> ConflictKept(ev, target, full, slice, c)))
  {
    var full := BuildRequest(ev, target, snapshotId, query);
    var slice := SliceRequest(ev, target, snapshotId, query);
    RequestIsPart(ev, target, snapshotId, query);
    RequestBut(ev, target, snapshotId, query);
    TargetIsCode(ev, target, snapshotId, query);
    forall p: Path | AnchorPath(full, p)
      ensures AnchorPath(slice, p) <==> Avoids(p, LostEdges(ev, target))
      ensures UsesOnly(slice.edges, p) <==> Avoids(p, LostEdges(ev, target))
    {
      AnchorKeptExactly(full, slice, KeptWithTarget(ev, target), LostEdges(ev, target), Kept(ev, target), p);
    }
    forall c | ConflictHolds(full, c)
      ensures ConflictHolds(slice, c) <==> ConflictKept(ev, target, full, slice, c)
    {
      ConflictKeptExactly(ev, target, full, slice, c);
    }
  }

  /** No path to an anchor uses a lost edge, and every conflict is kept. */
  ghost predicate NothingDependsOnLost(ev: Evidence, target: Target, full: Request, slice: Request) {
    && (forall p: Path :: AnchorPath(full, p) ==> Avoids(p, LostEdges(ev, target)))
    && (forall c :: ConflictHolds(full, c) ==> ConflictKept(ev, target, full, slice, c))
  }

  lemma LossesTogether(ev: Evidence, target: Target, full: Request, slice: Request)
    requires forall p: Path :: AnchorPath(full, p) ==> (AnchorPath(slice, p) <==> Avoids(p, LostEdges(ev, target)))
    requires forall c :: ConflictHolds(full, c) ==>
               (ConflictHolds(slice, c) <==> ConflictKept(ev, target, full, slice, c))
    ensures NothingDependsOnLost(ev, target, full, slice) <==>
            && (forall p: Path :: AnchorPath(full, p) ==> AnchorPath(slice, p))
            && (forall c :: ConflictHolds(full, c) ==> ConflictHolds(slice, c))
  {
  }

  /** Asking over the slice loses no path to an anchor and no conflict exactly when none of them
      depends on a lost edge. */
  lemma WhyLosesNothing(ev: Evidence, target: Target, snapshotId: string, query: string)
    requires ClosedEvidence(ev) && ReferencesNamed(ev, target)
    requires WellFormed(BuildRequest(ev, target, snapshotId, query))
    ensures var full := BuildRequest(ev, target, snapshotId, query);
            var slice := SliceRequest(ev, target, snapshotId, query);
            NothingDependsOnLost(ev, target, full, slice) <==>
            && (forall p: Path :: AnchorPath(full, p) ==> AnchorPath(slice, p))
            && (forall c :: ConflictHolds(full, c) ==> ConflictHolds(slice, c))
  {
    WhyLosesExactly(ev, target, snapshotId, query);
    LossesTogether(
      ev, target, BuildRequest(ev, target, snapshotId, query), SliceRequest(ev, target, snapshotId, query));
  }

  // ----- when why answers as over the whole snapshot

  /** Both requests are too large in the same way, or neither is. */
  ghost predicate SameOversize(full: Request, slice: Request) {
    && (|full.nodes| > Rules.MAX_NODES <==> |slice.nodes| > Rules.MAX_NODES)
    && (|full.nodes| > Rules.MAX_NODES || (|full.edges| > Rules.MAX_EDGES <==> |slice.edges| > Rules.MAX_EDGES))
  }

  lemma RefusalTexts()
    ensures TOO_MANY_NODES != TOO_MANY_EDGES && TOO_MANY_NODES != PATH_STATES && TOO_MANY_EDGES != PATH_STATES
  {
    var a, b := TOO_MANY_NODES.message, TOO_MANY_EDGES.message;
    var c := PATH_STATES.message;
    assert a[27] == 'n' && b[27] == 'e';
    assert a[0] == 'e' && b[0] == 'e' && c[0] == 'p';
  }

  lemma SizeRefusal(r: Request)
    requires r.protocolVersion == 1
    ensures |r.nodes| > Rules.MAX_NODES ==> Evaluation(r) == ErrorResponse(1, r.requestId, TOO_MANY_NODES)
    ensures |r.nodes| <= Rules.MAX_NODES && |r.edges| > Rules.MAX_EDGES ==>
              Evaluation(r) == ErrorResponse(1, r.requestId, TOO_MANY_EDGES)
    ensures WellFormed(r) ==>
              Evaluation(r).ProofResponse? || Evaluation(r) == ErrorResponse(1, r.requestId, PATH_STATES)
  {
    if WellFormed(r) {
      EvaluationMeaning(r);
    }
  }

  lemma OversizeAgrees(full: Request, slice: Request)
    requires full.protocolVersion == slice.protocolVersion == 1 && full.requestId == slice.requestId
    requires |full.nodes| > Rules.MAX_NODES || |full.edges| > Rules.MAX_EDGES
    requires WellFormed(slice) <==> |slice.nodes| <= Rules.MAX_NODES && |slice.edges| <= Rules.MAX_EDGES
    requires |slice.nodes| <= |full.nodes| && |slice.edges| <= |full.edges|
    ensures Evaluation(slice) == Evaluation(full) <==> SameOversize(full, slice)
  {
    RefusalTexts();
    SizeRefusal(full);
    SizeRefusal(slice);
  }

  /** Both requests are too large in the same way, or both have too many paths, or the answer over
      the slice loses nothing that decides it and stands under the supersession of the snapshot. */
  ghost predicate AnswerCarries(full: Request, slice: Request) {
    && SameOversize(full, slice)
    && (WellFormed(full) ==>
          if Evaluation(slice).ProofResponse?
          then WithinCap(full, slice) && AnswerStands(full, slice, Evaluation(slice).proof)
          else !WithinCap(full, slice))
  }

  /** The slice is a part of the request, no larger, and sizes alone decide what is accepted. */
  ghost predicate Fits(full: Request, slice: Request) {
    && full.protocolVersion == slice.protocolVersion == 1 && full.requestId == slice.requestId
    && (WellFormed(full) <==> |full.nodes| <= Rules.MAX_NODES && |full.edges| <= Rules.MAX_EDGES)
    && (WellFormed(slice) <==> |slice.nodes| <= Rules.MAX_NODES && |slice.edges| <= Rules.MAX_EDGES)
    && |slice.nodes| <= |full.nodes| && |slice.edges| <= |full.edges|
    && (WellFormed(full) ==> PartOf(full, slice))
  }

  lemma FittingAnswers(full: Request, slice: Request)
    requires Fits(full, slice)
    ensures Evaluation(slice) == Evaluation(full) <==> AnswerCarries(full, slice)
  {
    if WellFormed(full) {
      PartAnswersExactly(full, slice);
    } else {
      OversizeAgrees(full, slice);
    }
  }

  lemma RequestsFit(ev: Evidence, target: Target, snapshotId: string, query: string)
    requires ClosedEvidence(ev) && ReferencesNamed(ev, target)
    ensures Fits(BuildRequest(ev, target, snapshotId, query), SliceRequest(ev, target, snapshotId, query))
  {
    SliceFits(ev, target, snapshotId, query);
    if WellFormed(BuildRequest(ev, target, snapshotId, query)) {
      RequestIsPart(ev, target, snapshotId, query);
    }
  }

  /** For every target, `why` answers over the slice as it would over the whole snapshot exactly
      when that answer carries over. */
  lemma WhyAnswersTheSame(ev: Evidence, target: Target, snapshotId: string, query: string)
    requires ClosedEvidence(ev) && ReferencesNamed(ev, target)
    ensures var full := BuildRequest(ev, target, snapshotId, query);
            var slice := SliceRequest(ev, target, snapshotId, query);
            Evaluation(slice) == Evaluation(full) <==> AnswerCarries(full, slice)
  {
    RequestsFit(ev, target, snapshotId, query);
    FittingAnswers(
      BuildRequest(ev, target, snapshotId, query), SliceRequest(ev, target, snapshotId, query));
  }
}
