/** What a target adds to the evidence it is attached to, record by record and edge by edge. */
module References {
  import opened Wrappers
  import opened Sequences
  import opened Model
  import opened Evaluator
  import opened Targets

  // ----- names of reference edges

  /** The kinds of reference edges have names that differ in their first character. */
  lemma KindFromName(a: EdgeKind, x: string, b: EdgeKind, y: string)
    requires a in {ResolvesIssue, Documents} && b in {ResolvesIssue, Documents}
    requires KindName(a) + x == KindName(b) + y
    ensures a == b
  {
    assert KindName(a)[0] == (KindName(a) + x)[0] == (KindName(b) + y)[0] == KindName(b)[0];
  }

  lemma MaterialInjective(name: string, source: string, a: string, b: string, locator: string)
    requires name + NUL + source + NUL + a + NUL + locator == name + NUL + source + NUL + b + NUL + locator
    ensures a == b
  {
    var prefix, suffix := name + NUL + source + NUL, NUL + locator;
    assert prefix + a + suffix == prefix + b + suffix by {
      Regroup(prefix + a, NUL, locator);
      Regroup(prefix + b, NUL, locator);
    }
    Regroup(prefix, a, suffix);
    Regroup(prefix, b, suffix);
    PrefixCancels(prefix, a + suffix, b + suffix);
    assert |a| == |b|;
    assert a == (a + suffix)[..|a|] && b == (b + suffix)[..|b|];
  }

  /** Two references of one commit with one edge id are the same edge. */
  lemma ReferenceTargets(commit: Commit, references: seq<Reference>, e: Edge, f: Edge)
    requires e in ReferenceEdges(commit, references) && f in ReferenceEdges(commit, references) && e.id == f.id
    ensures e == f
  {
    ReferenceShape(commit, references, e);
    ReferenceShape(commit, references, f);
    var locator := MessageOrigin(commit).locator;
    var x := NUL + commit.id + NUL + e.targetId + NUL + locator;
    var y := NUL + commit.id + NUL + f.targetId + NUL + locator;
    PrefixCancels(
      "edge:", Material(e.kind, commit.id, e.targetId, locator),
      Material(f.kind, commit.id, f.targetId, locator));
    MaterialKind(e.kind, commit.id, e.targetId, locator);
    MaterialKind(f.kind, commit.id, f.targetId, locator);
    KindFromName(e.kind, x, f.kind, y);
    MaterialInjective(KindName(e.kind), commit.id, e.targetId, f.targetId, locator);
  }

  lemma MaterialKind(kind: EdgeKind, source: string, target: string, locator: string)
    ensures Material(kind, source, target, locator) == KindName(kind) + (NUL + source + NUL + target + NUL + locator)
  {
    var name := KindName(kind);
    assert name + (NUL + source + NUL + target + NUL + locator) == name + NUL + source + NUL + target + NUL + locator;
  }

  lemma {:induction false} ReferenceShape(commit: Commit, references: seq<Reference>, e: Edge)
    requires e in ReferenceEdges(commit, references)
    ensures e == EvidenceEdge(e.kind, commit.id, e.targetId, MessageOrigin(commit))
    ensures e.kind == ResolvesIssue || e.kind == Documents
  {
    if references != [] && !(ReferenceEdge(commit, references[0]) == Some(e)) {
      ReferenceShape(commit, references[1..], e);
    }
  }

  lemma SameReference(commit: Commit, e: Edge, f: Edge)
    requires e in CommitReferenceEdges(commit) && f in CommitReferenceEdges(commit) && e.id == f.id
    ensures e == f
  {
    ReferenceTargets(commit, commit.references, e, f);
  }

  // ----- a commit

  /** The edge a reference of a commit message stands for: issues and stories are resolved,
      decisions are documented, and a link to the forge stands for none. */
  ghost predicate Refers(reference: Reference, commit: Commit, e: Edge) {
    && e.sourceId == commit.id && e.targetId == reference.value && e.status == Current
    && e.origin == Origin(Git, "commit:" + commit.id + "#message", Some(commit.id), None)
    && match reference.kind
       case IssueReference => e.kind == ResolvesIssue
       case StoryReference => e.kind == ResolvesIssue
       case DecisionReference => e.kind == Documents
       case ForgeUrl => false
  }

  lemma {:induction false} EdgesOfReferences(commit: Commit, references: seq<Reference>)
    ensures forall r :: r in references && r.kind != ForgeUrl ==>
              exists e :: e in ReferenceEdges(commit, references) && Refers(r, commit, e)
    ensures forall e :: e in ReferenceEdges(commit, references) ==>
              exists r :: r in references && Refers(r, commit, e)
  {
    if references != [] {
      var first, rest := references[0], references[1..];
      EdgesOfReferences(commit, rest);
      assert forall r :: r in references <==> r == first || r in rest;
      if first.kind != ForgeUrl {
        var e := ReferenceEdge(commit, first).value;
        assert Refers(first, commit, e) && ReferenceEdges(commit, references) == [e] + ReferenceEdges(commit, rest);
      } else {
        assert ReferenceEdges(commit, references) == [] + ReferenceEdges(commit, rest);
      }
    }
  }

  /** The record of a commit that the evidence does not have. */
  function OwnRecord(commit: Commit): Node {
    Node(
      commit.id, Change, Current, None, None,
      Origin(Git, "commit:" + commit.id, Some(commit.id), commit.committedAt))
  }

  lemma AttachedReference(commit: Commit, edges: map<string, Edge>, present: set<string>, e: Edge)
    requires e in CommitReferenceEdges(commit) && e.targetId in present
    ensures var r := PutEdges(edges, PresentReferences(commit, present));
            e.id in r && r[e.id] == e
  {
    var added := PresentReferences(commit, present);
    PutEdgesOverlay(edges, added);
    PutEdgesMembers(added);
    SameReference(commit, PutEdges(map[], added)[e.id], e);
  }

  lemma AddedReference(commit: Commit, edges: map<string, Edge>, present: set<string>, k: string)
    requires k in PutEdges(edges, PresentReferences(commit, present))
    ensures var e := PutEdges(edges, PresentReferences(commit, present))[k];
            || (k in edges && edges[k] == e)
            || (e in CommitReferenceEdges(commit) && e.targetId in present)
  {
    var added := PresentReferences(commit, present);
    PutEdgesOverlay(edges, added);
    PutEdgesMembers(added);
  }

  /** Attaching a commit: its record is added if there is none, every reference of its message to a
      record that is there becomes an edge, no other edge is added, and nothing is removed. */
  lemma CommitAttachedExactly(commit: Commit, a: Attachment)
    ensures var r := Attached(CommitTarget(commit), a);
            && r.nodes == (if commit.id in a.nodes then a.nodes else a.nodes[commit.id := OwnRecord(commit)])
            && (forall ref :: ref in commit.references && ref.kind != ForgeUrl && ref.value in r.nodes ==>
                  exists k :: k in r.edges && Refers(ref, commit, r.edges[k]))
            && (forall k :: k in r.edges ==>
                  || (k in a.edges && r.edges[k] == a.edges[k])
                  || exists ref :: ref in commit.references && ref.value in r.nodes && Refers(ref, commit, r.edges[k]))
            && (forall k :: k in a.edges ==> k in r.edges)
  {
    var r := Attached(CommitTarget(commit), a);
    EdgesOfReferences(commit, commit.references);
    PutEdgesOverlay(a.edges, PresentReferences(commit, r.nodes.Keys));
    forall ref | ref in commit.references && ref.kind != ForgeUrl && ref.value in r.nodes
      ensures exists k :: k in r.edges && Refers(ref, commit, r.edges[k])
    {
      var e :| e in CommitReferenceEdges(commit) && Refers(ref, commit, e);
      AttachedReference(commit, a.edges, r.nodes.Keys, e);
    }
    forall k | k in r.edges
      ensures
        || (k in a.edges && r.edges[k] == a.edges[k])
        || exists ref :: ref in commit.references && ref.value in r.nodes && Refers(ref, commit, r.edges[k])
    {
      AddedReference(commit, a.edges, r.nodes.Keys, k);
    }
  }

  // ----- lines

  /** Where the lines are, and the name of that place at its revision. */
  function Place(target: Target): string
    requires target.LinesTarget?
  {
    target.path + ":" + Decimal(target.startLine) + "-" + Decimal(target.endLine)
  }

  function PlaceId(target: Target): string
    requires target.LinesTarget?
  {
    "code:" + Digest(Place(target) + "@" + target.revision)
  }

  /** The lines were introduced by the commit. */
  ghost predicate Introduces(target: Target, commitId: string, e: Edge)
    requires target.LinesTarget?
  {
    && e.kind == IntroducedBy && e.status == Current
    && e.sourceId == PlaceId(target) && e.targetId == commitId
    && e.origin == Origin(Git, Place(target), Some(target.revision), None)
  }

  lemma IntroducedFacts(target: Target, commitId: string)
    requires target.LinesTarget?
    ensures Introduces(target, commitId, IntroducedEdge(target, commitId))
  {
  }

  lemma IntroducedName(target: Target, a: string, b: string)
    requires target.LinesTarget? && IntroducedEdge(target, a).id == IntroducedEdge(target, b).id
    ensures a == b
  {
    var locator := LinesOrigin(target).locator;
    PrefixCancels(
      "edge:", Material(IntroducedBy, TargetId(target), a, locator),
      Material(IntroducedBy, TargetId(target), b, locator));
    MaterialInjective(KindName(IntroducedBy), TargetId(target), a, b, locator);
  }

  lemma AttachedLink(target: Target, edges: map<string, Edge>, commitId: string)
    requires target.LinesTarget? && commitId in target.introducedBy
    ensures var r, e := PutEdges(edges, IntroducedEdges(target)), IntroducedEdge(target, commitId);
            e.id in r && r[e.id] == e
  {
    var links, e := IntroducedEdges(target), IntroducedEdge(target, commitId);
    var i :| 0 <= i < |target.introducedBy| && target.introducedBy[i] == commitId;
    assert links[i] == e && e in links;
    PutEdgesOverlay(edges, links);
    PutEdgesMembers(links);
    LinkOf(target, PutEdges(map[], links)[e.id]);
    IntroducedName(target, PutEdges(map[], links)[e.id].targetId, commitId);
  }

  lemma LinkOf(target: Target, e: Edge)
    requires target.LinesTarget? && e in IntroducedEdges(target)
    ensures e.targetId in target.introducedBy && e == IntroducedEdge(target, e.targetId)
  {
    var i :| 0 <= i < |IntroducedEdges(target)| && IntroducedEdges(target)[i] == e;
    assert e == IntroducedEdge(target, target.introducedBy[i]);
  }

  lemma AddedLink(target: Target, edges: map<string, Edge>, k: string)
    requires target.LinesTarget? && k in PutEdges(edges, IntroducedEdges(target))
    ensures var e := PutEdges(edges, IntroducedEdges(target))[k];
            || (k in edges && edges[k] == e)
            || (e.targetId in target.introducedBy && Introduces(target, e.targetId, e))
  {
    var links := IntroducedEdges(target);
    PutEdgesOverlay(edges, links);
    PutEdgesMembers(links);
    if k in PutEdges(map[], links) {
      LinkOf(target, PutEdges(map[], links)[k]);
    }
  }

  /** The record of a commit of which only the id is known. */
  function Stub(commitId: string): Node {
    Node(commitId, Change, Current, None, None, Origin(Git, "commit:" + commitId, Some(commitId), None))
  }

  lemma StubRecord(commitIds: seq<string>, c: string)
    requires c in PutAbsent(map[], IntroducedNodes(commitIds))
    ensures PutAbsent(map[], IntroducedNodes(commitIds))[c] == Stub(c)
  {
    var stubs := IntroducedNodes(commitIds);
    PutAbsentMembers(stubs);
    var i :| 0 <= i < |stubs| && stubs[i] == PutAbsent(map[], stubs)[c];
    assert stubs[i] == ChangeNode(commitIds[i], None);
  }

  lemma StubRecords(commitIds: seq<string>)
    ensures var stubs := PutAbsent(map[], IntroducedNodes(commitIds));
            stubs.Keys == Elements(commitIds) && forall c :: c in stubs ==> stubs[c] == Stub(c)
  {
    IntroducedNodesMembers(commitIds);
    forall c | c in PutAbsent(map[], IntroducedNodes(commitIds))
      ensures PutAbsent(map[], IntroducedNodes(commitIds))[c] == Stub(c)
    {
      StubRecord(commitIds, c);
    }
  }

  lemma PlaceRecord(target: Target)
    requires target.LinesTarget?
    ensures TargetId(target) == PlaceId(target)
    ensures LinesNode(target)
            == Node(
                 PlaceId(target), CodeTarget, Current, None, None,
                 Origin(Git, Place(target), Some(target.revision), None))
  {
  }

  lemma OverlaidRecords(stubs: map<string, Node>, before: map<string, Node>, id: string, own: Node)
    ensures var nodes := stubs + before[id := own];
            && nodes.Keys == before.Keys + {id} + stubs.Keys && nodes[id] == own
            && (forall k :: k in before && k != id ==> nodes[k] == before[k])
            && (forall c :: c in stubs && c != id && c !in before ==> nodes[c] == stubs[c])
  {
  }

  /** The records of attaching lines: the place itself, and one for each commit it has none of. */
  lemma LinesRecords(target: Target, a: Attachment)
    requires target.LinesTarget?
    ensures var nodes := Attached(target, a).nodes;
            var id := PlaceId(target);
            && nodes.Keys == a.nodes.Keys + {id} + Elements(target.introducedBy)
            && nodes[id] == Node(
                              id, CodeTarget, Current, None, None,
                              Origin(Git, Place(target), Some(target.revision), None))
            && (forall k :: k in a.nodes && k != id ==> nodes[k] == a.nodes[k])
            && (forall c :: c in target.introducedBy && c != id && c !in a.nodes ==> nodes[c] == Stub(c))
  {
    PlaceRecord(target);
    PutAbsentOverlay(a.nodes[TargetId(target) := LinesNode(target)], IntroducedNodes(target.introducedBy));
    StubRecords(target.introducedBy);
    OverlaidRecords(
      PutAbsent(map[], IntroducedNodes(target.introducedBy)), a.nodes, TargetId(target), LinesNode(target));
  }

  /** The edges of attaching lines: one to each commit that introduced them, and no other; nothing
      is removed. */
  lemma LinesLinks(target: Target, a: Attachment)
    requires target.LinesTarget?
    ensures var edges := Attached(target, a).edges;
            && (forall c :: c in target.introducedBy ==> exists k :: k in edges && Introduces(target, c, edges[k]))
            && (forall k :: k in edges ==>
                  || (k in a.edges && edges[k] == a.edges[k])
                  || (edges[k].targetId in target.introducedBy && Introduces(target, edges[k].targetId, edges[k])))
            && (forall k :: k in a.edges ==> k in edges)
  {
    var edges := PutEdges(a.edges, IntroducedEdges(target));
    PutEdgesOverlay(a.edges, IntroducedEdges(target));
    forall c | c in target.introducedBy
      ensures exists k :: k in edges && Introduces(target, c, edges[k])
    {
      AttachedLink(target, a.edges, c);
      IntroducedFacts(target, c);
    }
    forall k | k in edges
      ensures
        || (k in a.edges && edges[k] == a.edges[k])
        || (edges[k].targetId in target.introducedBy && Introduces(target, edges[k].targetId, edges[k]))
    {
      AddedLink(target, a.edges, k);
    }
  }
}
