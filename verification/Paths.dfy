/** Exactness of the traversal: the enumeration holds every simple path once, shorter
    paths first, and nothing else. */
module Paths {
  import opened Sequences
  import opened Model
  import opened Proof
  import opened Graph
  import opened Traversal

  /** One admissible hop, named by its edge so that parallel edges stay distinct. */
  ghost predicate Step(view: View, source: string, edgeId: string, target: string) {
    && view.Active(source)
    && exists e :: e in view.edges && e.id == edgeId && e.sourceId == source && e.targetId == target
  }

  /** Declarative reference: a walk from the target that repeats no node. */
  ghost predicate SimplePath(view: View, targetId: string, p: Path) {
    && p.nodeIds[0] == targetId
    && |p.nodeIds| == |p.edgeIds| + 1
    && Distinct(p.nodeIds)
    && forall i :: 0 <= i < |p.edgeIds| ==> Step(view, p.nodeIds[i], p.edgeIds[i], p.nodeIds[i + 1])
  }

  ghost predicate AllSimple(view: View, targetId: string, paths: seq<Path>) {
    forall p :: p in paths ==> SimplePath(view, targetId, p)
  }

  /** The first `k` hops of a path. */
  ghost function Take(p: Path, k: nat): Path
    requires |p.nodeIds| == |p.edgeIds| + 1 && k <= |p.edgeIds|
  {
    Route(p.nodeIds[..k + 1], p.edgeIds[..k])
  }

  ghost predicate Begins(p: Path, q: Path) {
    p.nodeIds <= q.nodeIds && p.edgeIds <= q.edgeIds
  }

  // ----- one step

  lemma {:induction false} ExtendMembers(path: Path, candidates: seq<Edge>, q: Path)
    ensures q in Extend(path, candidates) <==>
            exists e :: e in candidates && e.targetId !in path.nodeIds && q == Append(path, e)
  {
    if candidates != [] {
      ExtendMembers(path, candidates[1..], q);
      assert candidates == [candidates[0]] + candidates[1..];
    }
  }

  lemma SuccessorIsSimple(view: View, targetId: string, p: Path, q: Path)
    requires SimplePath(view, targetId, p)
    requires q in Successors(view, p)
    ensures SimplePath(view, targetId, q)
    ensures Begins(p, q) && |q.edgeIds| == |p.edgeIds| + 1
  {
    ExtendMembers(p, From(view.edges, Last(p)), q);
    var e :| e in From(view.edges, Last(p)) && e.targetId !in p.nodeIds && q == Append(p, e);
    forall i | 0 <= i < |q.edgeIds|
      ensures Step(view, q.nodeIds[i], q.edgeIds[i], q.nodeIds[i + 1])
    {
      if i < |p.edgeIds| {
        assert Step(view, p.nodeIds[i], p.edgeIds[i], p.nodeIds[i + 1]);
      } else {
        assert e in view.edges && e.id == q.edgeIds[i];
      }
    }
  }

  lemma TakeIsSimple(view: View, targetId: string, p: Path, k: nat)
    requires SimplePath(view, targetId, p) && k <= |p.edgeIds|
    ensures SimplePath(view, targetId, Take(p, k))
    ensures Begins(Take(p, k), p)
  {
    var q := Take(p, k);
    forall i | 0 <= i < |q.edgeIds|
      ensures Step(view, q.nodeIds[i], q.edgeIds[i], q.nodeIds[i + 1])
    {
      assert Step(view, p.nodeIds[i], p.edgeIds[i], p.nodeIds[i + 1]);
    }
  }

  lemma NextTakeIsSuccessor(view: View, targetId: string, p: Path, k: nat)
    requires SimplePath(view, targetId, p) && k < |p.edgeIds|
    ensures Take(p, k + 1) in Successors(view, Take(p, k))
  {
    var q := Take(p, k);
    assert Step(view, p.nodeIds[k], p.edgeIds[k], p.nodeIds[k + 1]);
    var e :| e in view.edges && e.id == p.edgeIds[k]
             && e.sourceId == p.nodeIds[k] && e.targetId == p.nodeIds[k + 1];
    assert Last(q) == p.nodeIds[k];
    assert e in From(view.edges, Last(q));
    assert Take(p, k + 1) == Append(q, e);
    ExtendMembers(q, From(view.edges, Last(q)), Take(p, k + 1));
  }

  lemma NextIsSimple(view: View, targetId: string, queue: seq<Path>)
    requires queue != [] && AllSimple(view, targetId, queue)
    ensures AllSimple(view, targetId, queue[1..] + Successors(view, queue[0]))
  {
    forall p | p in queue[1..] + Successors(view, queue[0])
      ensures SimplePath(view, targetId, p)
    {
      if p in Successors(view, queue[0]) {
        SuccessorIsSimple(view, targetId, queue[0], p);
      }
    }
  }

  // ----- nothing else, and nothing missing

  lemma {:induction false} ExploreSound(view: View, targetId: string, queue: seq<Path>)
    requires AllSimple(view, targetId, queue)
    ensures AllSimple(view, targetId, Explore(view, queue))
    decreases Cost(view, queue)
  {
    if queue != [] {
      CostDecreases(view, queue);
      NextIsSimple(view, targetId, queue);
      ExploreSound(view, targetId, queue[1..] + Successors(view, queue[0]));
    }
  }

  lemma {:induction false} ExploreComplete(view: View, targetId: string, queue: seq<Path>, p: Path, k: nat)
    requires SimplePath(view, targetId, p) && k <= |p.edgeIds|
    requires Take(p, k) in queue
    ensures p in Explore(view, queue)
    decreases Cost(view, queue)
  {
    CostDecreases(view, queue);
    var next := queue[1..] + Successors(view, queue[0]);
    if Take(p, k) == queue[0] {
      if k == |p.edgeIds| {
        assert Take(p, k) == p;
      } else {
        NextTakeIsSuccessor(view, targetId, p, k);
        ExploreComplete(view, targetId, next, p, k + 1);
      }
    } else {
      ExploreComplete(view, targetId, next, p, k);
    }
  }

  // ----- exactly once

  /** Every enumerated path continues one that was queued. */
  lemma {:induction false} ExploreBelow(view: View, targetId: string, queue: seq<Path>, p: Path)
    requires AllSimple(view, targetId, queue)
    requires p in Explore(view, queue)
    ensures exists q :: q in queue && Begins(q, p)
    decreases Cost(view, queue)
  {
    CostDecreases(view, queue);
    if p == queue[0] {
      assert Begins(queue[0], p);
    } else {
      var next := queue[1..] + Successors(view, queue[0]);
      NextIsSimple(view, targetId, queue);
      ExploreBelow(view, targetId, next, p);
      var q :| q in next && Begins(q, p);
      if q in Successors(view, queue[0]) {
        SuccessorIsSimple(view, targetId, queue[0], q);
        assert Begins(queue[0], p);
      }
    }
  }

  /** No queued path continues another. */
  ghost predicate Antichain(queue: seq<Path>) {
    forall i, j :: 0 <= i < |queue| && 0 <= j < |queue| && i != j ==> !Begins(queue[i], queue[j])
  }

  /** Paths in `s` are one-edge continuations of `p` along distinct edges. */
  ghost predicate Siblings(p: Path, s: seq<Path>) {
    && (forall q :: q in s ==> Begins(p, q) && |q.edgeIds| == |p.edgeIds| + 1 && |q.nodeIds| == |p.nodeIds| + 1)
    && (forall i, j :: 0 <= i < j < |s| ==> s[i].edgeIds != s[j].edgeIds)
  }

  lemma {:induction false} ExtendSiblings(p: Path, candidates: seq<Edge>)
    requires DistinctEdgeIds(candidates)
    ensures Siblings(p, Extend(p, candidates))
  {
    if candidates != [] {
      ExtendSiblings(p, candidates[1..]);
      var rest := Extend(p, candidates[1..]);
      forall j | 0 <= j < |rest|
        ensures rest[j].edgeIds != p.edgeIds + [candidates[0].id]
      {
        assert rest[j] in rest;
        ExtendMembers(p, candidates[1..], rest[j]);
        var e :| e in candidates[1..] && e.targetId !in p.nodeIds && rest[j] == Append(p, e);
        assert e.id != candidates[0].id;
        assert rest[j].edgeIds == p.edgeIds + [e.id];
        assert (p.edgeIds + [e.id])[|p.edgeIds|] != (p.edgeIds + [candidates[0].id])[|p.edgeIds|];
      }
    }
  }

  lemma FromDistinct(edges: seq<Edge>, id: string)
    requires DistinctEdgeIds(edges)
    ensures DistinctEdgeIds(From(edges, id))
  {
    EdgeOrder(edges);
    FilterDistinct((e: Edge) => e.sourceId == id, edges);
    SubDistinctEdgeIds(edges, From(edges, id));
  }

  lemma BeginsTransitive(p: Path, q: Path, r: Path)
    requires Begins(p, q) && Begins(q, r)
    ensures Begins(p, r)
  {
  }

  /** Whatever begins a one-edge continuation of `head` begins `head` or is that continuation. */
  lemma SiblingBeginning(head: Path, q: Path, p: Path)
    requires Begins(head, q) && |q.edgeIds| == |head.edgeIds| + 1 && |q.nodeIds| == |head.nodeIds| + 1
    requires |p.nodeIds| == |p.edgeIds| + 1 && |head.nodeIds| == |head.edgeIds| + 1
    requires Begins(p, q)
    ensures Begins(p, head) || Begins(head, p)
  {
  }

  lemma AntichainStep(queue: seq<Path>, s: seq<Path>)
    requires queue != [] && Antichain(queue) && Siblings(queue[0], s)
    requires forall p :: p in queue ==> |p.nodeIds| == |p.edgeIds| + 1
    ensures Antichain(queue[1..] + s)
  {
    var next := queue[1..] + s;
    var head := queue[0];
    forall i, j | 0 <= i < |next| && 0 <= j < |next| && i != j
      ensures !Begins(next[i], next[j])
    {
      var n := |queue| - 1;
      if i < n && j < n {
        assert next[i] == queue[i + 1] && next[j] == queue[j + 1];
      } else if i < n {
        assert next[j] in s && next[i] == queue[i + 1] && next[i] in queue;
        if Begins(next[i], next[j]) {
          SiblingBeginning(head, next[j], next[i]);
        }
      } else if j < n {
        assert next[i] in s && next[j] == queue[j + 1];
        if Begins(next[i], next[j]) {
          BeginsTransitive(head, next[i], next[j]);
        }
      } else {
        assert next[i] == s[i - n] && next[j] == s[j - n];
        assert next[i] in s && next[j] in s;
        assert next[i].edgeIds != next[j].edgeIds;
        assert |next[i].edgeIds| == |next[j].edgeIds|;
      }
    }
  }

  /** Once dequeued, a path is not enumerated again. */
  lemma HeadIsFresh(view: View, targetId: string, queue: seq<Path>)
    requires queue != [] && AllSimple(view, targetId, queue) && Antichain(queue)
    ensures queue[0] !in Explore(view, queue[1..] + Successors(view, queue[0]))
  {
    var head := queue[0];
    var next := queue[1..] + Successors(view, head);
    NextIsSimple(view, targetId, queue);
    forall q | q in next
      ensures !Begins(q, head)
    {
      if q in Successors(view, head) {
        SuccessorIsSimple(view, targetId, head, q);
      } else {
        var i :| 0 <= i < |queue[1..]| && queue[1..][i] == q;
        assert q == queue[i + 1];
      }
    }
    if head in Explore(view, next) {
      ExploreBelow(view, targetId, next, head);
    }
  }

  lemma {:induction false} ExploreDistinct(view: View, targetId: string, queue: seq<Path>)
    requires DistinctEdgeIds(view.edges)
    requires AllSimple(view, targetId, queue) && Antichain(queue)
    ensures Distinct(Explore(view, queue))
    decreases Cost(view, queue)
  {
    if queue != [] {
      CostDecreases(view, queue);
      var head := queue[0];
      NextIsSimple(view, targetId, queue);
      FromDistinct(view.edges, Last(head));
      ExtendSiblings(head, From(view.edges, Last(head)));
      AntichainStep(queue, Successors(view, head));
      ExploreDistinct(view, targetId, queue[1..] + Successors(view, head));
      HeadIsFresh(view, targetId, queue);
    }
  }

  // ----- shorter first

  ghost predicate Nondecreasing(paths: seq<Path>) {
    forall i, j :: 0 <= i < j < |paths| ==> |paths[i].edgeIds| <= |paths[j].edgeIds|
  }

  /** A breadth-first queue spans at most two consecutive lengths, shorter ones first. */
  ghost predicate Breadth(queue: seq<Path>) {
    && Nondecreasing(queue)
    && (queue != [] ==> |queue[|queue| - 1].edgeIds| <= |queue[0].edgeIds| + 1)
  }

  lemma BreadthSpan(queue: seq<Path>)
    requires Breadth(queue)
    ensures forall i :: 0 <= i < |queue| ==> |queue[0].edgeIds| <= |queue[i].edgeIds| <= |queue[0].edgeIds| + 1
  {
  }

  /** Dropping the head and appending paths one longer than it keeps the breadth. */
  lemma BreadthAppend(queue: seq<Path>, longer: seq<Path>)
    requires queue != [] && Breadth(queue)
    requires forall i :: 0 <= i < |longer| ==> |longer[i].edgeIds| == |queue[0].edgeIds| + 1
    ensures Breadth(queue[1..] + longer)
  {
    BreadthSpan(queue);
    var rest := queue[1..];
    var next := rest + longer;
    assert forall i :: 0 <= i < |rest| ==> rest[i] == queue[i + 1];
    assert Nondecreasing(rest);
    forall i | 0 <= i < |next|
      ensures |queue[0].edgeIds| <= |next[i].edgeIds| <= |queue[0].edgeIds| + 1
    {
    }
  }

  lemma BreadthStep(view: View, targetId: string, queue: seq<Path>)
    requires queue != [] && AllSimple(view, targetId, queue) && Breadth(queue)
    ensures Breadth(queue[1..] + Successors(view, queue[0]))
  {
    var s := Successors(view, queue[0]);
    forall i | 0 <= i < |s|
      ensures |s[i].edgeIds| == |queue[0].edgeIds| + 1
    {
      assert s[i] in s;
      SuccessorIsSimple(view, targetId, queue[0], s[i]);
    }
    BreadthAppend(queue, s);
  }

  ghost predicate AtLeast(paths: seq<Path>, length: nat) {
    forall p :: p in paths ==> length <= |p.edgeIds|
  }

  lemma {:induction false} ExploreAtLeast(view: View, targetId: string, queue: seq<Path>, length: nat)
    requires AllSimple(view, targetId, queue) && AtLeast(queue, length)
    ensures AtLeast(Explore(view, queue), length)
    decreases Cost(view, queue)
  {
    if queue != [] {
      CostDecreases(view, queue);
      var next := queue[1..] + Successors(view, queue[0]);
      NextIsSimple(view, targetId, queue);
      forall p | p in next
        ensures length <= |p.edgeIds|
      {
        if p in Successors(view, queue[0]) {
          SuccessorIsSimple(view, targetId, queue[0], p);
        }
      }
      ExploreAtLeast(view, targetId, next, length);
    }
  }

  lemma HeadIsShortest(queue: seq<Path>)
    requires queue != [] && Breadth(queue)
    ensures forall p :: p in queue ==> |queue[0].edgeIds| <= |p.edgeIds|
  {
    forall p | p in queue
      ensures |queue[0].edgeIds| <= |p.edgeIds|
    {
      var i :| 0 <= i < |queue| && queue[i] == p;
    }
  }

  lemma NondecreasingCons(head: Path, tail: seq<Path>)
    requires Nondecreasing(tail) && AtLeast([head] + tail, |head.edgeIds|)
    ensures Nondecreasing([head] + tail)
  {
    var all := [head] + tail;
    forall i, j | 0 <= i < j < |all|
      ensures |all[i].edgeIds| <= |all[j].edgeIds|
    {
      assert all[j] in all;
    }
  }

  lemma {:induction false} ExploreNondecreasing(view: View, targetId: string, queue: seq<Path>)
    requires AllSimple(view, targetId, queue) && Breadth(queue)
    ensures Nondecreasing(Explore(view, queue))
    decreases Cost(view, queue)
  {
    if queue != [] {
      CostDecreases(view, queue);
      var next := queue[1..] + Successors(view, queue[0]);
      NextIsSimple(view, targetId, queue);
      BreadthStep(view, targetId, queue);
      ExploreNondecreasing(view, targetId, next);
      HeadIsShortest(queue);
      ExploreAtLeast(view, targetId, queue, |queue[0].edgeIds|);
      NondecreasingCons(queue[0], Explore(view, next));
    }
  }

  // ----- the theorem

  lemma RootIsSimple(view: View, targetId: string)
    ensures SimplePath(view, targetId, Root(targetId))
    ensures AllSimple(view, targetId, [Root(targetId)])
    ensures Antichain([Root(targetId)]) && Breadth([Root(targetId)])
  {
  }

  /** The enumeration is exactly the set of simple paths, each once, shorter ones first. */
  lemma TraversalExactness(view: View, targetId: string)
    requires DistinctEdgeIds(view.edges)
    ensures forall p: Path :: p in AllPaths(view, targetId) <==> SimplePath(view, targetId, p)
    ensures Distinct(AllPaths(view, targetId))
    ensures Nondecreasing(AllPaths(view, targetId))
  {
    var queue := [Root(targetId)];
    RootIsSimple(view, targetId);
    ExploreSound(view, targetId, queue);
    ExploreDistinct(view, targetId, queue);
    ExploreNondecreasing(view, targetId, queue);
    forall p: Path | SimplePath(view, targetId, p)
      ensures p in AllPaths(view, targetId)
    {
      assert Take(p, 0) == Root(targetId);
      ExploreComplete(view, targetId, queue, p, 0);
    }
  }

  /** Every set that consists of the simple paths has as many elements as the enumeration. */
  lemma SimplePathCount(view: View, targetId: string, paths: set<Path>)
    requires DistinctEdgeIds(view.edges)
    requires forall p: Path :: p in paths <==> SimplePath(view, targetId, p)
    ensures |paths| == |AllPaths(view, targetId)|
  {
    TraversalExactness(view, targetId);
    DistinctCard(AllPaths(view, targetId));
    assert paths == Elements(AllPaths(view, targetId));
  }
}
