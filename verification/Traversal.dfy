/** Breadth-first enumeration of simple paths: the queue-driven loop of the kernel and
    the function it computes. */
module Traversal {
  import opened Wrappers
  import opened Sequences
  import opened Model
  import opened Proof
  import opened Graph
  import Rules

  /** What a traversal reads besides the goal. */
  datatype View = View(nodes: map<string, Node>, superseded: set<string>, edges: seq<Edge>) {

    predicate Active(id: string) {
      ActiveId(nodes, superseded, id)
    }
  }

  function Root(targetId: string): Path {
    Route([targetId], [])
  }

  function Append(path: Path, edge: Edge): Path {
    Route(path.nodeIds + [edge.targetId], path.edgeIds + [edge.id])
  }

  /** The one-edge continuations of `path` along `candidates` that repeat no node. */
  function Extend(path: Path, candidates: seq<Edge>): seq<Path> {
    if candidates == [] then []
    else
      (if candidates[0].targetId in path.nodeIds then [] else [Append(path, candidates[0])])
      + Extend(path, candidates[1..])
  }

  function Successors(view: View, path: Path): seq<Path> {
    if view.Active(Last(path)) then Extend(path, From(view.edges, Last(path))) else []
  }

  // ----- termination: every continuation uses up one edge target

  ghost function Unvisited(view: View, path: Path): set<string> {
    (set e | e in view.edges :: e.targetId) - Elements(path.nodeIds)
  }

  /** A bound on the paths below one that can still be continued `remaining` times. */
  ghost function Budget(width: nat, remaining: nat): nat {
    if remaining == 0 then 1 else 1 + width * Budget(width, remaining - 1)
  }

  ghost function Cost(view: View, queue: seq<Path>): nat {
    if queue == [] then 0
    else Budget(|view.edges|, |Unvisited(view, queue[0])|) + Cost(view, queue[1..])
  }

  lemma {:induction false} CostAppend(view: View, a: seq<Path>, b: seq<Path>)
    ensures Cost(view, a + b) == Cost(view, a) + Cost(view, b)
  {
    if a == [] {
      assert a + b == b;
    } else {
      assert (a + b)[1..] == a[1..] + b;
      CostAppend(view, a[1..], b);
    }
  }

  lemma AppendVisits(view: View, path: Path, edge: Edge)
    requires edge in view.edges && edge.targetId !in path.nodeIds
    ensures |Unvisited(view, Append(path, edge))| == |Unvisited(view, path)| - 1
  {
    assert Elements(Append(path, edge).nodeIds) == Elements(path.nodeIds) + {edge.targetId};
    assert edge.targetId in Unvisited(view, path);
    assert Unvisited(view, Append(path, edge)) == Unvisited(view, path) - {edge.targetId};
  }

  lemma AppendCosts(view: View, path: Path, edge: Edge, b: nat)
    requires edge in view.edges && edge.targetId !in path.nodeIds && Unvisited(view, path) != {}
    requires b == Budget(|view.edges|, |Unvisited(view, path)| - 1)
    ensures Budget(|view.edges|, |Unvisited(view, Append(path, edge))|) == b
  {
    AppendVisits(view, path, edge);
  }

  /** One more item within the budget of each. */
  lemma MultipleStep(n: nat, b: nat, first: nat, rest: nat)
    requires n > 0 && first <= b && rest <= (n - 1) * b
    ensures first + rest <= n * b
  {
  }

  lemma {:induction false} ExtendStuck(view: View, path: Path, candidates: seq<Edge>)
    requires forall e :: e in candidates ==> e in view.edges
    requires Unvisited(view, path) == {}
    ensures Extend(path, candidates) == []
  {
    if candidates != [] {
      assert candidates[0].targetId !in Unvisited(view, path);
      ExtendStuck(view, path, candidates[1..]);
    }
  }

  lemma {:induction false} CostExtend(view: View, path: Path, candidates: seq<Edge>, b: nat)
    requires forall e :: e in candidates ==> e in view.edges
    requires Unvisited(view, path) != {}
    requires b == Budget(|view.edges|, |Unvisited(view, path)| - 1)
    ensures Cost(view, Extend(path, candidates)) <= |candidates| * b
  {
    if candidates != [] {
      var e, rest := candidates[0], Extend(path, candidates[1..]);
      CostExtend(view, path, candidates[1..], b);
      assert |candidates[1..]| == |candidates| - 1;
      if e.targetId in path.nodeIds {
        MultipleStep(|candidates|, b, 0, Cost(view, rest));
        assert Extend(path, candidates) == rest;
      } else {
        AppendCosts(view, path, e, b);
        CostCons(view, Append(path, e), rest);
        MultipleStep(|candidates|, b, b, Cost(view, rest));
        assert Extend(path, candidates) == [Append(path, e)] + rest;
      }
    }
  }

  lemma {:induction false} CostCons(view: View, head: Path, tail: seq<Path>)
    ensures Cost(view, [head] + tail) == Budget(|view.edges|, |Unvisited(view, head)|) + Cost(view, tail)
  {
    assert ([head] + tail)[1..] == tail;
  }

  lemma CostSingle(view: View, path: Path)
    ensures Cost(view, [path]) == Budget(|view.edges|, |Unvisited(view, path)|)
  {
    assert [path][1..] == [];
  }

  /** Replacing the head of the queue by its continuations lowers the cost: the loop of the
      kernel terminates whatever cycles the graph has, even without the state cap. */
  lemma CostDecreases(view: View, queue: seq<Path>)
    requires queue != []
    ensures Cost(view, queue[1..] + Successors(view, queue[0])) < Cost(view, queue)
  {
    var path := queue[0];
    var candidates := From(view.edges, Last(path));
    CostAppend(view, queue[1..], Successors(view, path));
    if Unvisited(view, path) == {} {
      ExtendStuck(view, path, candidates);
    } else {
      var b := Budget(|view.edges|, |Unvisited(view, path)| - 1);
      CostExtend(view, path, candidates, b);
      WidthMonotone(|candidates|, |view.edges|, b);
    }
  }

  lemma WidthMonotone(a: nat, b: nat, c: nat)
    requires a <= b
    ensures a * c <= b * c
  {
  }

  /** The paths the loop takes off the queue, in order, if nothing stops it. */
  function Explore(view: View, queue: seq<Path>): (r: seq<Path>)
    decreases Cost(view, queue)
  {
    if queue == [] then []
    else
      CostDecreases(view, queue);
      [queue[0]] + Explore(view, queue[1..] + Successors(view, queue[0]))
  }

  /** All paths the traversal of a target would enumerate. */
  function AllPaths(view: View, targetId: string): (r: seq<Path>)
    ensures r != [] && r[0] == Root(targetId)
  {
    Explore(view, [Root(targetId)])
  }

  // ----- result

  datatype Traversal = Traversal(paths: seq<Path>, anchors: seq<Path>, reachable: set<string>)

  const ABSENT_NODE := ProtocolError(MissingRecord, "traversal reached an absent node")
  const PATH_STATES := ProtocolError(ResourceLimit, "proof traversal exceeds the path-state limit")

  predicate EndsAtAnchor(goal: Goal, view: View, path: Path) {
    view.Active(Last(path)) && Rules.IsAnchor(goal, view.nodes[Last(path)])
  }

  function AnchorPaths(goal: Goal, view: View, paths: seq<Path>): seq<Path> {
    Filter((p: Path) => EndsAtAnchor(goal, view, p), paths)
  }

  function Ends(paths: seq<Path>): (r: set<string>)
    ensures forall id :: id in r <==> exists p :: p in paths && Last(p) == id
  {
    set p | p in paths :: Last(p)
  }

  /** Some path among the first `limit` ends at an id that names no node. */
  predicate MeetsAbsent(view: View, paths: seq<Path>, limit: nat) {
    exists i :: 0 <= i < |paths| && i < limit && Last(paths[i]) !in view.nodes
  }

  function Traversed(goal: Goal, view: View): (r: Result<Traversal, ProtocolError>)
    ensures r.Ok? ==>
              && r.value.paths != []
              && forall p :: p in r.value.paths ==> Last(p) in view.nodes
  {
    var all := AllPaths(view, goal.targetId);
    if MeetsAbsent(view, all, Rules.MAX_PATH_STATES) then Err(ABSENT_NODE)
    else if |all| > Rules.MAX_PATH_STATES then Err(PATH_STATES)
    else Ok(Traversal(all, Reverse(AnchorPaths(goal, view, all)), Ends(all)))
  }

  // ----- the loop

  /** A first-in first-out queue of paths. */
  class PathQueue {
    var items: seq<Path>

    constructor ()
      ensures items == []
    {
      items := [];
    }

    predicate IsEmpty()
      reads this
    {
      items == []
    }

    method Add(path: Path)
      modifies this
      ensures items == old(items) + [path]
    {
      items := items + [path];
    }

    method Take() returns (path: Path)
      requires !IsEmpty()
      modifies this
      ensures path == old(items)[0] && items == old(items)[1..]
    {
      path := items[0];
      items := items[1..];
    }
  }

  lemma {:induction false} ExtendSnoc(path: Path, candidates: seq<Edge>, edge: Edge)
    ensures Extend(path, candidates + [edge]) ==
            Extend(path, candidates)
            + if edge.targetId in path.nodeIds then [] else [Append(path, edge)]
  {
    if candidates == [] {
      assert candidates + [edge] == [edge];
    } else {
      assert (candidates + [edge])[1..] == candidates[1..] + [edge];
      ExtendSnoc(path, candidates[1..], edge);
    }
  }

  /** One pass of List.iter: enqueue the continuations of `path`. */
  method EnqueueSuccessors(queue: PathQueue, path: Path, candidates: seq<Edge>)
    modifies queue
    ensures queue.items == old(queue.items) + Extend(path, candidates)
  {
    for i := 0 to |candidates|
      invariant queue.items == old(queue.items) + Extend(path, candidates[..i])
    {
      var edge := candidates[i];
      assert candidates[..i + 1] == candidates[..i] + [edge];
      ExtendSnoc(path, candidates[..i], edge);
      if edge.targetId !in path.nodeIds {
        queue.Add(Append(path, edge));
      }
    }
    assert candidates[..|candidates|] == candidates;
  }

  /** Enqueues the continuations of `path` over the links that leave its last node. */
  method EnqueueLinks(queue: PathQueue, path: Path, edges: seq<Edge>, outgoing: map<string, seq<Edge>>)
    requires outgoing == OutgoingMap(edges)
    modifies queue
    ensures queue.items == old(queue.items) + Extend(path, From(edges, Last(path)))
  {
    OutgoingMeaning(edges, Last(path));
    EnqueueSuccessors(queue, path, Outgoing(outgoing, Last(path)));
  }

  lemma AnchorsSnoc(goal: Goal, view: View, paths: seq<Path>, path: Path)
    ensures AnchorPaths(goal, view, paths + [path]) ==
            AnchorPaths(goal, view, paths) + if EndsAtAnchor(goal, view, path) then [path] else []
  {
    FilterSnoc((p: Path) => EndsAtAnchor(goal, view, p), paths, path);
  }

  lemma EndsSnoc(paths: seq<Path>, path: Path)
    ensures Ends(paths + [path]) == Ends(paths) + {Last(path)}
  {
    forall id
      ensures id in Ends(paths + [path]) <==> id in Ends(paths) || id == Last(path)
    {
      if id in Ends(paths) {
        var p :| p in paths && Last(p) == id;
        assert p in paths + [path];
      }
      if id == Last(path) {
        assert path in paths + [path];
      }
    }
  }

  /** The accumulators of the loop after it has taken `done` off the queue. */
  ghost predicate Accumulated(
    goal: Goal, view: View, done: seq<Path>,
    explored: int, paths: seq<Path>, anchors: seq<Path>, reachable: set<string>)
  {
    && explored == |done|
    && paths == Reverse(done)
    && anchors == Reverse(AnchorPaths(goal, view, done))
    && reachable == Ends(done)
    && forall i :: 0 <= i < |done| ==> Last(done[i]) in view.nodes
  }

  lemma AccumulateStep(
    goal: Goal, view: View, done: seq<Path>,
    explored: int, paths: seq<Path>, anchors: seq<Path>, reachable: set<string>, path: Path)
    requires Accumulated(goal, view, done, explored, paths, anchors, reachable)
    requires Last(path) in view.nodes
    ensures Accumulated(
              goal, view, done + [path], explored + 1, [path] + paths,
              if EndsAtAnchor(goal, view, path) then [path] + anchors else anchors,
              reachable + {Last(path)})
  {
    ReverseSnoc(done, path);
    ReverseSnoc(AnchorPaths(goal, view, done), path);
    AnchorsSnoc(goal, view, done, path);
    EndsSnoc(done, path);
  }

  /** `done` followed by what the queue still yields is the whole enumeration. */
  ghost predicate Enumerating(view: View, all: seq<Path>, done: seq<Path>, queue: seq<Path>) {
    all == done + Explore(view, queue)
  }

  lemma EnumerateStep(view: View, all: seq<Path>, done: seq<Path>, queue: seq<Path>)
    requires queue != [] && Enumerating(view, all, done, queue)
    ensures Enumerating(view, all, done + [queue[0]], queue[1..] + Successors(view, queue[0]))
    ensures |done| < |all| && all[|done|] == queue[0]
    ensures forall i :: 0 <= i < |done| ==> all[i] == done[i]
  {
    CostDecreases(view, queue);
  }

  lemma EnumerationEnds(view: View, all: seq<Path>, done: seq<Path>)
    requires Enumerating(view, all, done, [])
    ensures all == done
  {
  }

  lemma StopsAtAbsent(goal: Goal, view: View, i: nat)
    requires i < |AllPaths(view, goal.targetId)| && i < Rules.MAX_PATH_STATES
    requires Last(AllPaths(view, goal.targetId)[i]) !in view.nodes
    ensures Traversed(goal, view) == Err(ABSENT_NODE)
  {
  }

  lemma StopsAtCap(goal: Goal, view: View)
    requires |AllPaths(view, goal.targetId)| > Rules.MAX_PATH_STATES
    requires forall i :: 0 <= i < Rules.MAX_PATH_STATES ==>
                           Last(AllPaths(view, goal.targetId)[i]) in view.nodes
    ensures Traversed(goal, view) == Err(PATH_STATES)
  {
  }

  /** Only an active node can be an anchor and is left again. */
  method Visit(
    goal: Goal,
    nodes: map<string, Node>,
    superseded: set<string>,
    edges: seq<Edge>,
    outgoing: map<string, seq<Edge>>,
    queue: PathQueue,
    path: Path,
    anchors: seq<Path>)
    returns (found: seq<Path>)
    requires outgoing == OutgoingMap(edges) && Last(path) in nodes
    modifies queue
    ensures queue.items == old(queue.items) + Successors(View(nodes, superseded, edges), path)
    ensures found == if EndsAtAnchor(goal, View(nodes, superseded, edges), path) then [path] + anchors else anchors
  {
    var node := nodes[Last(path)];
    found := anchors;
    if ActiveNode(superseded, node) {
      if Rules.IsAnchor(goal, node) {
        found := [path] + anchors;
      }
      EnqueueLinks(queue, path, edges, outgoing);
    } else {
      assert queue.items + [] == queue.items;
    }
  }

  /** The loop is asked to take one path more than the cap allows. */
  lemma CapReached(
    goal: Goal, view: View, done: seq<Path>, queue: seq<Path>,
    explored: int, paths: seq<Path>, anchors: seq<Path>, reachable: set<string>)
    requires Enumerating(view, AllPaths(view, goal.targetId), done, queue) && queue != []
    requires Accumulated(goal, view, done, explored, paths, anchors, reachable)
    requires explored == Rules.MAX_PATH_STATES
    ensures Traversed(goal, view) == Err(PATH_STATES)
  {
    EnumerateStep(view, AllPaths(view, goal.targetId), done, queue);
    StopsAtCap(goal, view);
  }

  lemma AbsentReached(
    goal: Goal, view: View, done: seq<Path>, queue: seq<Path>,
    explored: int, paths: seq<Path>, anchors: seq<Path>, reachable: set<string>)
    requires Enumerating(view, AllPaths(view, goal.targetId), done, queue) && queue != []
    requires Accumulated(goal, view, done, explored, paths, anchors, reachable)
    requires explored < Rules.MAX_PATH_STATES && Last(queue[0]) !in view.nodes
    ensures Traversed(goal, view) == Err(ABSENT_NODE)
  {
    EnumerateStep(view, AllPaths(view, goal.targetId), done, queue);
    StopsAtAbsent(goal, view, explored);
  }

  lemma PathTaken(
    goal: Goal, view: View, all: seq<Path>, done: seq<Path>, queue: seq<Path>,
    explored: int, paths: seq<Path>, anchors: seq<Path>, reachable: set<string>)
    requires Enumerating(view, all, done, queue) && queue != []
    requires Accumulated(goal, view, done, explored, paths, anchors, reachable)
    requires Last(queue[0]) in view.nodes
    ensures var path, rest := queue[0], queue[1..] + Successors(view, queue[0]);
            && Enumerating(view, all, done + [path], rest)
            && Cost(view, rest) < Cost(view, queue)
            && Accumulated(
                 goal, view, done + [path], explored + 1, [path] + paths,
                 if EndsAtAnchor(goal, view, path) then [path] + anchors else anchors,
                 reachable + {Last(path)})
  {
    EnumerateStep(view, all, done, queue);
    CostDecreases(view, queue);
    AccumulateStep(goal, view, done, explored, paths, anchors, reachable, queue[0]);
  }

  lemma RunsToTheEnd(
    goal: Goal, view: View, explored: int,
    paths: seq<Path>, anchors: seq<Path>, reachable: set<string>)
    requires Accumulated(
               goal, view, AllPaths(view, goal.targetId), explored, paths, anchors, reachable)
    requires explored <= Rules.MAX_PATH_STATES
    ensures Traversed(goal, view) == Ok(Traversal(Reverse(paths), anchors, reachable))
  {
    ReverseReverse(AllPaths(view, goal.targetId));
  }

  method Traverse(
    goal: Goal,
    nodes: map<string, Node>,
    superseded: set<string>,
    edges: seq<Edge>)
    returns (r: Result<Traversal, ProtocolError>)
    ensures r == Traversed(goal, View(nodes, superseded, edges))
  {
    ghost var view := View(nodes, superseded, edges);
    ghost var all := AllPaths(view, goal.targetId);
    ghost var done: seq<Path> := [];

    var outgoing := OutgoingMap(edges);
    var queue := new PathQueue();
    queue.Add(Root(goal.targetId));
    assert queue.items == [Root(goal.targetId)];
    var explored, paths, anchors, reachable := 0, [], [], {};
    while !queue.IsEmpty()
      invariant fresh(queue)
      invariant Enumerating(view, all, done, queue.items)
      invariant Accumulated(goal, view, done, explored, paths, anchors, reachable)
      invariant explored <= Rules.MAX_PATH_STATES
      decreases Cost(view, queue.items)
    {
      ghost var items := queue.items;
      if explored >= Rules.MAX_PATH_STATES {
        CapReached(goal, view, done, items, explored, paths, anchors, reachable);
        return Err(PATH_STATES);
      }
      var path := queue.Take();
      var nodeId := Last(path);
      if nodeId !in nodes {
        AbsentReached(goal, view, done, items, explored, paths, anchors, reachable);
        return Err(ABSENT_NODE);
      }
      PathTaken(goal, view, all, done, items, explored, paths, anchors, reachable);
      reachable := reachable + {nodeId};
      anchors := Visit(goal, nodes, superseded, edges, outgoing, queue, path, anchors);
      assert queue.items == items[1..] + Successors(view, path);
      done := done + [path];
      paths := [path] + paths;
      explored := explored + 1;
    }
    EnumerationEnds(view, all, done);
    RunsToTheEnd(goal, view, explored, paths, anchors, reachable);
    r := Ok(Traversal(Reverse(paths), anchors, reachable));
  }
}
