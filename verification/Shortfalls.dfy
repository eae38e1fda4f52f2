/** Snapshots on which `why` answers differently from the whole snapshot: a commit made after the
    last synchronisation, and a superseder left behind. */
module Shortfalls {
  import opened Wrappers
  import opened Sequences
  import opened Model
  import opened Evaluator
  import opened Meaning
  import opened Verdicts
  import opened Removal
  import opened Slicing
  import opened Reachable
  import opened Targets
  import opened Why
  import opened Examples

  /** What a request over evidence without conflicts lists. */
  lemma RequestRows(ev: Evidence, commit: Commit, a: Attachment, r: Request, snapshotId: string, query: string)
    requires ClosedEvidence(ev) && ev.conflicts == {}
    requires a == Attached(CommitTarget(commit), Attachment(ev.nodes, ev.edges))
    requires r == BuildRequest(ev, CommitTarget(commit), snapshotId, query)
    requires |a.nodes| <= 3 && |a.edges| <= 2
    ensures forall n :: n in r.nodes <==> n.id in a.nodes && a.nodes[n.id] == n
    ensures forall e :: e in r.edges <==> e.id in a.edges && a.edges[e.id] == e
    ensures r.conflicts == [] && r.goal == Goal(commit.id, [Decision, WorkItem])
    ensures WellFormed(r) && |r.edges| == |a.edges|
  {
    RequestLists(ev, CommitTarget(commit), snapshotId, query);
    RequestOverClosed(ev, CommitTarget(commit), snapshotId, query);
    assert |SortedConflicts(ev.conflicts)| == 0;
  }

  // ----- a commit made after the last synchronisation

  /** The snapshot holds one work item and nothing else. */
  const STORED: Evidence := Evidence(map["w" := Plain("w", WorkItem)], map[], {})

  /** The commit is not in the snapshot; its message names the work item. */
  const LATEST: Commit := Commit("c", None, [Reference(IssueReference, "w")])

  const REFERENCE: Edge := EvidenceEdge(ResolvesIssue, "c", "w", MessageOrigin(LATEST))

  lemma Names()
    ensures "c" != "w"
  {
    assert "c"[0] != "w"[0];
  }

  lemma LatestEdges()
    ensures CommitReferenceEdges(LATEST) == [REFERENCE]
  {
    assert LATEST.references[1..] == [];
    assert ReferenceEdges(LATEST, []) == [];
  }

  /** Without edges and conflicts nothing is reached but the seeds. */
  lemma IsolatedClosure(ev: Evidence, seeds: set<string>)
    requires ev.edges == map[] && ev.conflicts == {}
    ensures Closure(ev, seeds) == seeds
  {
    assert Invariant(ev, seeds) by {
      forall id | id in seeds
        ensures Neighbours(ev, id) <= seeds
      {
        assert Neighbours(ev, id) == {};
      }
    }
    ClosureIsLeast(ev, seeds);
  }

  lemma LatestKept()
    ensures Kept(STORED, CommitTarget(LATEST)) == {"c"}
  {
    IsolatedClosure(STORED, Elements(ProofSeedIds(CommitTarget(LATEST))));
  }

  /** What the request over the snapshot lists. */
  const ATTACHED: Attachment := Attachment(
    map["w" := Plain("w", WorkItem), "c" := CommitNode(LATEST)], map[REFERENCE.id := REFERENCE])

  /** What the store loads: nothing. */
  const UNSTORED: Evidence := Evidence(map[], map[], {})

  const ALONE: Attachment := Attachment(map["c" := CommitNode(LATEST)], map[])

  lemma LatestReferences(present: set<string>)
    ensures PresentReferences(LATEST, present) == if "w" in present then [REFERENCE] else []
  {
    LatestEdges();
    assert [REFERENCE][1..] == [];
  }

  lemma FullAttached()
    ensures Attached(CommitTarget(LATEST), Attachment(STORED.nodes, STORED.edges)) == ATTACHED
  {
    Names();
    LatestReferences({"w", "c"});
    PutEdgesSnoc(map[], [], REFERENCE);
    assert [] + [REFERENCE] == [REFERENCE];
    assert InsertAbsent(STORED.nodes, "c", CommitNode(LATEST)).Keys == {"w", "c"};
  }

  lemma SliceAttached()
    ensures Attached(CommitTarget(LATEST), Attachment(UNSTORED.nodes, UNSTORED.edges)) == ALONE
  {
    Names();
    LatestReferences({"c"});
    assert InsertAbsent(UNSTORED.nodes, "c", CommitNode(LATEST)).Keys == {"c"};
  }

  lemma LatestClosed()
    ensures ClosedEvidence(STORED) && ClosedEvidence(UNSTORED)
    ensures |ATTACHED.nodes| <= 3 && |ATTACHED.edges| <= 2 && |ALONE.nodes| <= 3 && |ALONE.edges| <= 2
  {
    Names();
  }

  lemma LatestSliced(snapshotId: string, query: string)
    ensures SliceRequest(STORED, CommitTarget(LATEST), snapshotId, query)
            == BuildRequest(UNSTORED, CommitTarget(LATEST), snapshotId, query)
  {
    LatestKept();
    LatestRestricted();
  }

  lemma LatestRestricted()
    ensures Restrict(STORED, {"c"}) == UNSTORED
  {
    Names();
    var part := Restrict(STORED, {"c"});
    assert part.nodes == map[];
    assert part.edges == map[];
  }

  lemma FullRequest(r: Request, snapshotId: string, query: string)
    requires r == BuildRequest(STORED, CommitTarget(LATEST), snapshotId, query)
    ensures forall n :: n in r.nodes <==> n.id in ATTACHED.nodes && ATTACHED.nodes[n.id] == n
    ensures forall e :: e in r.edges <==> e.id in ATTACHED.edges && ATTACHED.edges[e.id] == e
    ensures r.conflicts == [] && r.goal == Goal("c", [Decision, WorkItem])
    ensures WellFormed(r) && |r.edges| == |ATTACHED.edges|
  {
    LatestClosed();
    FullAttached();
    RequestRows(STORED, LATEST, ATTACHED, r, snapshotId, query);
  }

  lemma SlicedRequest(s: Request, snapshotId: string, query: string)
    requires s == BuildRequest(UNSTORED, CommitTarget(LATEST), snapshotId, query)
    ensures forall n :: n in s.nodes <==> n.id in ALONE.nodes && ALONE.nodes[n.id] == n
    ensures forall e :: e in s.edges <==> e.id in ALONE.edges && ALONE.edges[e.id] == e
    ensures s.conflicts == [] && s.goal == Goal("c", [Decision, WorkItem])
    ensures WellFormed(s) && |s.edges| == |ALONE.edges|
  {
    LatestClosed();
    SliceAttached();
    RequestRows(UNSTORED, LATEST, ALONE, s, snapshotId, query);
  }

  /** A request whose target is linked to an anchor, without superseders and conflicts. */
  lemma OneHopEstablished(r: Request, e: Edge, n: Node)
    requires WellFormed(r) && |r.edges| <= 2 && !InConflict(r)
    requires forall f :: f in r.edges ==> f.kind != Supersedes
    requires forall x :: x in r.nodes ==> x.status == Current
    requires e in r.edges && e.status == Current && e.sourceId == r.goal.targetId && e.targetId == n.id
    requires n in r.nodes && n.kind in r.goal.anchorKinds
    ensures Evaluation(r).ProofResponse? && VerdictOf(r) == Established
  {
    TwoEdgesAnswered(r);
    NothingDisplaced(r);
    OneHop(r, e);
    assert AnchorRecord(r, n);
    VerdictCharacterisation(r);
  }

  /** A request without links whose target is no anchor is not established. */
  lemma LinklessNotEstablished(r: Request)
    requires WellFormed(r) && |r.edges| <= 2 && !InConflict(r)
    requires forall e :: !Link(r, e)
    requires forall n :: n in r.nodes && n.id == r.goal.targetId ==> n.kind !in r.goal.anchorKinds
    ensures Evaluation(r).ProofResponse? && VerdictOf(r) == NotEstablished
  {
    TwoEdgesAnswered(r);
    forall n | AnchorRecord(r, n)
      ensures !Reaches(r, n.id)
    {
      ReachedByLink(r, n.id);
    }
    VerdictCharacterisation(r);
  }

  lemma Quiet(r: Request)
    requires r.conflicts == [] && forall n :: n in r.nodes ==> n.subjectId.None?
    ensures !InConflict(r)
  {
  }

  lemma AttachedFacts(r: Request)
    requires forall n :: n in r.nodes <==> n.id in ATTACHED.nodes && ATTACHED.nodes[n.id] == n
    requires forall e :: e in r.edges <==> e.id in ATTACHED.edges && ATTACHED.edges[e.id] == e
    ensures Plain("w", WorkItem) in r.nodes && REFERENCE in r.edges
    ensures forall e :: e in r.edges ==> e.kind != Supersedes
    ensures forall n :: n in r.nodes ==> n.status == Current && n.subjectId.None?
  {
    Names();
  }

  lemma AttachedEstablished(r: Request)
    requires forall n :: n in r.nodes <==> n.id in ATTACHED.nodes && ATTACHED.nodes[n.id] == n
    requires forall e :: e in r.edges <==> e.id in ATTACHED.edges && ATTACHED.edges[e.id] == e
    requires r.conflicts == [] && r.goal == Goal("c", [Decision, WorkItem]) && WellFormed(r) && |r.edges| <= 2
    ensures Evaluation(r).ProofResponse? && VerdictOf(r) == Established
  {
    AttachedFacts(r);
    Quiet(r);
    OneHopEstablished(r, REFERENCE, Plain("w", WorkItem));
  }

  lemma FullEstablished(r: Request, snapshotId: string, query: string)
    requires r == BuildRequest(STORED, CommitTarget(LATEST), snapshotId, query)
    ensures Evaluation(r).ProofResponse? && VerdictOf(r) == Established
  {
    FullRequest(r, snapshotId, query);
    AttachedEstablished(r);
  }

  lemma SliceNotEstablished(s: Request, snapshotId: string, query: string)
    requires s == BuildRequest(UNSTORED, CommitTarget(LATEST), snapshotId, query)
    ensures Evaluation(s).ProofResponse? && VerdictOf(s) == NotEstablished
  {
    SlicedRequest(s, snapshotId, query);
    Quiet(s);
    LinklessNotEstablished(s);
  }

  lemma NotSliceable()
    ensures ClosedEvidence(STORED) && !Sliceable(STORED, CommitTarget(LATEST))
  {
    assert ClosedEvidence(STORED) by {
      LatestClosed();
    }
    assert REFERENCE in CommitReferenceEdges(LATEST) by {
      LatestEdges();
    }
    assert "w" !in Kept(STORED, CommitTarget(LATEST)) by {
      Names();
      LatestKept();
    }
    UnwalkedReference(STORED, CommitTarget(LATEST), REFERENCE);
  }

  lemma UnwalkedReference(ev: Evidence, target: Target, e: Edge)
    requires target.CommitTarget? && e in CommitReferenceEdges(target.commit)
    requires e.targetId in ev.nodes && e.targetId !in Kept(ev, target)
    ensures !Sliceable(ev, target)
  {
  }

  /** Asked over the whole snapshot the commit is explained by the work item; asked over its
      slice, as `why` does, it is not: the reference is attached only to records that were
      loaded, and nothing stored leads from the commit to the work item. */
  lemma UnsynchronisedCommitLosesReference(full: Request, slice: Request, snapshotId: string, query: string)
    requires full == BuildRequest(STORED, CommitTarget(LATEST), snapshotId, query)
    requires slice == SliceRequest(STORED, CommitTarget(LATEST), snapshotId, query)
    ensures ClosedEvidence(STORED) && !Sliceable(STORED, CommitTarget(LATEST))
    ensures Evaluation(full).ProofResponse? && VerdictOf(full) == Established
    ensures Evaluation(slice).ProofResponse? && VerdictOf(slice) == NotEstablished
  {
    NotSliceable();
    LatestSliced(snapshotId, query);
    FullEstablished(full, snapshotId, query);
    SliceNotEstablished(slice, snapshotId, query);
  }

  // ----- a superseder left behind

  const OVERRULES := Edge("b", Supersedes, "x", "d", Current, NOWHERE)

  /** Commit c leads to decision d, which decision x supersedes; nothing leads from c to x. */
  const OVERRULED: Evidence := Evidence(
    map["c" := Plain("c", Change), "d" := Plain("d", Decision), "x" := Plain("x", Decision)],
    map["a" := Points("a", "c", "d"), "b" := OVERRULES], {})

  /** The message of the commit refers to nothing. */
  const ASKED: Commit := Commit("c", None, [])

  /** What the store loads. */
  const REACHED: Evidence := Evidence(
    map["c" := Plain("c", Change), "d" := Plain("d", Decision)], map["a" := Points("a", "c", "d")], {})

  lemma OverruledNames()
    ensures "c" != "x" && "c" != "d" && "d" != "x" && "a" != "b"
  {
    assert "c"[0] != "x"[0] && "c"[0] != "d"[0] && "d"[0] != "x"[0] && "a"[0] != "b"[0];
  }

  lemma OverruledClosed()
    ensures ClosedEvidence(OVERRULED) && ClosedEvidence(REACHED)
  {
    OverruledNames();
  }

  lemma OverruledNeighbours()
    ensures Neighbours(OVERRULED, "c") == {"d"} && Neighbours(OVERRULED, "d") == {}
  {
    OverruledNames();
    var e := OVERRULED.edges["a"];
    assert e.sourceId == "c" && e.targetId == "d";
  }

  lemma PairInvariant(ev: Evidence, x: string, y: string)
    requires Neighbours(ev, x) == {y} && Neighbours(ev, y) == {}
    ensures Invariant(ev, {x, y})
  {
    forall id | id in {x, y}
      ensures Neighbours(ev, id) <= {x, y}
    {
      assert id == x || id == y;
    }
  }

  lemma PairMembers(ev: Evidence, x: string, y: string, s: set<string>)
    requires Neighbours(ev, x) == {y} && Invariant(ev, s)
    requires x in s && s <= {x, y}
    ensures s == {x, y}
  {
    assert Neighbours(ev, x) <= s;
  }

  lemma OneStepClosure(ev: Evidence, x: string, y: string)
    requires Neighbours(ev, x) == {y} && Neighbours(ev, y) == {}
    ensures Closure(ev, {x}) == {x, y}
  {
    PairInvariant(ev, x, y);
    ClosureIsLeast(ev, {x});
    PairMembers(ev, x, y, Closure(ev, {x}));
  }

  lemma OverruledKept()
    ensures Kept(OVERRULED, CommitTarget(ASKED)) == {"c", "d"}
  {
    OverruledNeighbours();
    OneStepClosure(OVERRULED, "c", "d");
    assert Elements(ProofSeedIds(CommitTarget(ASKED))) == {"c"};
  }

  lemma OverruledRestricted()
    ensures Restrict(OVERRULED, {"c", "d"}) == REACHED
  {
    OverruledNames();
    var part := Restrict(OVERRULED, {"c", "d"});
    assert part.nodes == REACHED.nodes;
    assert part.edges == REACHED.edges;
  }

  /** Attaching the commit changes nothing. */
  lemma AskedAttached(ev: Evidence)
    requires "c" in ev.nodes
    ensures Attached(CommitTarget(ASKED), Attachment(ev.nodes, ev.edges)) == Attachment(ev.nodes, ev.edges)
  {
    assert CommitReferenceEdges(ASKED) == [];
    assert PresentReferences(ASKED, ev.nodes.Keys) == [];
  }

  lemma AskedRequest(ev: Evidence, r: Request, snapshotId: string, query: string)
    requires ClosedEvidence(ev) && ev.conflicts == {} && "c" in ev.nodes && |ev.nodes| <= 3 && |ev.edges| <= 2
    requires r == BuildRequest(ev, CommitTarget(ASKED), snapshotId, query)
    ensures forall n :: n in r.nodes <==> n.id in ev.nodes && ev.nodes[n.id] == n
    ensures forall e :: e in r.edges <==> e.id in ev.edges && ev.edges[e.id] == e
    ensures r.conflicts == [] && r.goal == Goal("c", [Decision, WorkItem])
    ensures WellFormed(r) && |r.edges| <= 2
  {
    AskedAttached(ev);
    RequestRows(ev, ASKED, Attachment(ev.nodes, ev.edges), r, snapshotId, query);
  }

  lemma OverruledSizes()
    ensures |OVERRULED.nodes| <= 3 && |OVERRULED.edges| <= 2 && |REACHED.nodes| <= 3 && |REACHED.edges| <= 2
  {
    OverruledNames();
  }

  lemma OverruledRequest(r: Request, snapshotId: string, query: string)
    requires r == BuildRequest(OVERRULED, CommitTarget(ASKED), snapshotId, query)
    ensures forall n :: n in r.nodes <==> n.id in OVERRULED.nodes && OVERRULED.nodes[n.id] == n
    ensures forall e :: e in r.edges <==> e.id in OVERRULED.edges && OVERRULED.edges[e.id] == e
    ensures r.conflicts == [] && r.goal == Goal("c", [Decision, WorkItem])
    ensures WellFormed(r) && |r.edges| <= 2
  {
    OverruledClosed();
    OverruledSizes();
    AskedRequest(OVERRULED, r, snapshotId, query);
  }

  lemma ReachedRequest(s: Request, snapshotId: string, query: string)
    requires s == BuildRequest(REACHED, CommitTarget(ASKED), snapshotId, query)
    ensures forall n :: n in s.nodes <==> n.id in REACHED.nodes && REACHED.nodes[n.id] == n
    ensures forall e :: e in s.edges <==> e.id in REACHED.edges && REACHED.edges[e.id] == e
    ensures s.conflicts == [] && s.goal == Goal("c", [Decision, WorkItem])
    ensures WellFormed(s) && |s.edges| <= 2
  {
    OverruledClosed();
    OverruledSizes();
    AskedRequest(REACHED, s, snapshotId, query);
  }

  lemma OverruledSliced(snapshotId: string, query: string)
    ensures SliceRequest(OVERRULED, CommitTarget(ASKED), snapshotId, query)
            == BuildRequest(REACHED, CommitTarget(ASKED), snapshotId, query)
  {
    OverruledKept();
    OverruledRestricted();
  }

  lemma OverruledDisplaced(r: Request)
    requires forall n :: n in r.nodes <==> n.id in OVERRULED.nodes && OVERRULED.nodes[n.id] == n
    requires forall e :: e in r.edges <==> e.id in OVERRULED.edges && OVERRULED.edges[e.id] == e
    ensures Displaced(r, "d") && !DisplacedFrom(r, {"c", "d"}, "d")
    ensures forall e :: !Link(r, e)
  {
    OverruledNames();
    assert OVERRULES in r.edges && Plain("x", Decision) in r.nodes;
    assert Displaced(r, "d");
    forall e | e in r.edges
      ensures e == OVERRULES || e == Points("a", "c", "d")
    {
    }
  }

  lemma OverruledFacts(r: Request)
    requires forall n :: n in r.nodes <==> n.id in OVERRULED.nodes && OVERRULED.nodes[n.id] == n
    ensures forall n :: n in r.nodes ==> n.subjectId.None?
    ensures forall n :: n in r.nodes && n.id == "c" ==> n.kind == Change
  {
    OverruledNames();
  }

  lemma OverruledVerdict(r: Request)
    requires forall n :: n in r.nodes <==> n.id in OVERRULED.nodes && OVERRULED.nodes[n.id] == n
    requires forall e :: !Link(r, e)
    requires r.conflicts == [] && r.goal == Goal("c", [Decision, WorkItem]) && WellFormed(r) && |r.edges| <= 2
    ensures Evaluation(r).ProofResponse? && VerdictOf(r) == NotEstablished
  {
    OverruledFacts(r);
    Quiet(r);
    LinklessNotEstablished(r);
  }

  lemma OverruledLeftBehind(r: Request, snapshotId: string, query: string)
    requires r == BuildRequest(OVERRULED, CommitTarget(ASKED), snapshotId, query)
    ensures !SupersedersKept(r, {"c", "d"})
  {
    OverruledRequest(r, snapshotId, query);
    OverruledDisplaced(r);
  }

  lemma OverruledNotEstablished(r: Request, snapshotId: string, query: string)
    requires r == BuildRequest(OVERRULED, CommitTarget(ASKED), snapshotId, query)
    ensures Evaluation(r).ProofResponse? && VerdictOf(r) == NotEstablished
  {
    OverruledRequest(r, snapshotId, query);
    OverruledDisplaced(r);
    OverruledVerdict(r);
  }

  lemma ReachedFacts(s: Request)
    requires forall n :: n in s.nodes <==> n.id in REACHED.nodes && REACHED.nodes[n.id] == n
    requires forall e :: e in s.edges <==> e.id in REACHED.edges && REACHED.edges[e.id] == e
    ensures Plain("d", Decision) in s.nodes && Points("a", "c", "d") in s.edges
    ensures forall e :: e in s.edges ==> e.kind != Supersedes
    ensures forall n :: n in s.nodes ==> n.status == Current && n.subjectId.None?
  {
    OverruledNames();
  }

  lemma ReachedVerdict(s: Request)
    requires forall n :: n in s.nodes <==> n.id in REACHED.nodes && REACHED.nodes[n.id] == n
    requires forall e :: e in s.edges <==> e.id in REACHED.edges && REACHED.edges[e.id] == e
    requires s.conflicts == [] && s.goal == Goal("c", [Decision, WorkItem]) && WellFormed(s) && |s.edges| <= 2
    ensures Evaluation(s).ProofResponse? && VerdictOf(s) == Established
  {
    ReachedFacts(s);
    Quiet(s);
    OneHopEstablished(s, Points("a", "c", "d"), Plain("d", Decision));
  }

  lemma ReachedEstablished(s: Request, snapshotId: string, query: string)
    requires s == BuildRequest(REACHED, CommitTarget(ASKED), snapshotId, query)
    ensures Evaluation(s).ProofResponse? && VerdictOf(s) == Established
  {
    ReachedRequest(s, snapshotId, query);
    ReachedVerdict(s);
  }

  lemma AskedSliceable(ev: Evidence)
    ensures Sliceable(ev, CommitTarget(ASKED))
  {
    assert CommitReferenceEdges(ASKED) == [];
  }

  lemma AskedKept()
    ensures KeptWithTarget(OVERRULED, CommitTarget(ASKED)) == {"c", "d"}
  {
    OverruledKept();
  }

  lemma OverruledSlice(snapshotId: string, query: string)
    ensures SliceOf(
              BuildRequest(OVERRULED, CommitTarget(ASKED), snapshotId, query),
              SliceRequest(OVERRULED, CommitTarget(ASKED), snapshotId, query), {"c", "d"})
  {
    OverruledClosed();
    AskedKept();
    AskedSliceable(OVERRULED);
    SliceableExactly(OVERRULED, CommitTarget(ASKED), snapshotId, query);
  }

  /** The slice `why` asks over may answer "established" where the snapshot does not, although it
      is exactly the part of the snapshot that is reachable: its only fault is a superseder that
      the walk does not find. */
  lemma SliceCanDiffer(full: Request, slice: Request, snapshotId: string, query: string)
    requires full == BuildRequest(OVERRULED, CommitTarget(ASKED), snapshotId, query)
    requires slice == SliceRequest(OVERRULED, CommitTarget(ASKED), snapshotId, query)
    ensures SliceOf(full, slice, {"c", "d"}) && !SupersedersKept(full, {"c", "d"})
    ensures Evaluation(full).ProofResponse? && VerdictOf(full) == NotEstablished
    ensures Evaluation(slice).ProofResponse? && VerdictOf(slice) == Established
  {
    OverruledSlice(snapshotId, query);
    OverruledSliced(snapshotId, query);
    OverruledLeftBehind(full, snapshotId, query);
    OverruledNotEstablished(full, snapshotId, query);
    ReachedEstablished(slice, snapshotId, query);
  }
}
