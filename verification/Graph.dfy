/** The active evidence graph: what supersession and history leave of a request. */
module Graph {
  import opened Sequences
  import opened Ordering
  import opened Model
  import Rules

  /** Indexing by id; a later node with the same id replaces an earlier one. */
  function NodeMap(nodes: seq<Node>): map<string, Node> {
    if nodes == [] then map[]
    else
      var last := nodes[|nodes| - 1];
      NodeMap(nodes[..|nodes| - 1])[last.id := last]
  }

  predicate Displaces(nodes: map<string, Node>, edge: Edge) {
    && edge.status == Current
    && edge.kind == Supersedes
    && edge.sourceId in nodes
    && nodes[edge.sourceId].status == Current
  }

  /** Ids that a current Supersedes edge from a current node points at. */
  function SupersededNodes(nodes: map<string, Node>, edges: seq<Edge>): set<string> {
    if edges == [] then {}
    else
      var last := edges[|edges| - 1];
      var rest := SupersededNodes(nodes, edges[..|edges| - 1]);
      if Displaces(nodes, last) then rest + {last.targetId} else rest
  }

  lemma {:induction false} SupersededMeaning(nodes: map<string, Node>, edges: seq<Edge>, id: string)
    ensures id in SupersededNodes(nodes, edges) <==>
            exists e :: e in edges && Displaces(nodes, e) && e.targetId == id
  {
    if edges != [] {
      SupersededMeaning(nodes, edges[..|edges| - 1], id);
      assert edges == edges[..|edges| - 1] + [edges[|edges| - 1]];
    }
  }

  predicate ActiveNode(superseded: set<string>, node: Node) {
    node.status == Current && node.id !in superseded
  }

  predicate ActiveId(nodes: map<string, Node>, superseded: set<string>, id: string) {
    id in nodes && ActiveNode(superseded, nodes[id])
  }

  predicate IsActiveEdge(nodes: map<string, Node>, superseded: set<string>, edge: Edge) {
    && Rules.IsTraversable(edge)
    && ActiveId(nodes, superseded, edge.sourceId)
    && ActiveId(nodes, superseded, edge.targetId)
  }

  /** Source, then target, then id. */
  predicate EdgeLess(left: Edge, right: Edge) {
    if left.sourceId != right.sourceId then StringLess(left.sourceId, right.sourceId)
    else if left.targetId != right.targetId then StringLess(left.targetId, right.targetId)
    else StringLess(left.id, right.id)
  }

  function ActiveEdges(nodes: map<string, Node>, superseded: set<string>, edges: seq<Edge>): seq<Edge> {
    Sort(EdgeLess, Filter((e: Edge) => IsActiveEdge(nodes, superseded, e), edges))
  }

  ghost predicate DistinctEdgeIds(edges: seq<Edge>) {
    forall i, j :: 0 <= i < j < |edges| ==> edges[i].id != edges[j].id
  }

  /** With distinct ids the edge comparison never ties. */
  lemma EdgeOrder(edges: seq<Edge>)
    requires DistinctEdgeIds(edges)
    ensures StrictOrder(EdgeLess) && TotalOn(EdgeLess, Elements(edges))
    ensures Distinct(edges)
  {
    StringOrder();
    forall x, y | x in Elements(edges) && y in Elements(edges) && x != y
      ensures EdgeLess(x, y) || EdgeLess(y, x)
    {
      var i :| 0 <= i < |edges| && edges[i] == x;
      var j :| 0 <= j < |edges| && edges[j] == y;
      assert x.id != y.id;
    }
  }

  lemma SubDistinctEdgeIds(edges: seq<Edge>, s: seq<Edge>)
    requires DistinctEdgeIds(edges)
    requires Distinct(s) && forall e :: e in s ==> e in edges
    ensures DistinctEdgeIds(s)
  {
    forall i, j | 0 <= i < j < |s|
      ensures s[i].id != s[j].id
    {
      assert s[i] in edges && s[j] in edges && s[i] != s[j];
    }
  }

  /** By source, then target, then id, each by character codes. */
  ghost predicate EdgePrecedes(a: Edge, b: Edge) {
    || Precedes(a.sourceId, b.sourceId)
    || (a.sourceId == b.sourceId
        && (|| Precedes(a.targetId, b.targetId)
            || (a.targetId == b.targetId && Precedes(a.id, b.id))))
  }

  lemma EdgeLessMeaning(a: Edge, b: Edge)
    ensures EdgeLess(a, b) <==> EdgePrecedes(a, b)
  {
    StringLessMeaning(a.sourceId, b.sourceId);
    StringLessMeaning(a.targetId, b.targetId);
    StringLessMeaning(a.id, b.id);
    StringOrder();
  }

  /** The traversal follows the active edges by source, then target, then id. */
  lemma ActiveEdgesOrdered(nodes: map<string, Node>, superseded: set<string>, edges: seq<Edge>)
    requires DistinctEdgeIds(edges)
    ensures var active := ActiveEdges(nodes, superseded, edges);
            forall i, j :: 0 <= i < j < |active| ==> !EdgePrecedes(active[j], active[i])
  {
    var kept := Filter((e: Edge) => IsActiveEdge(nodes, superseded, e), edges);
    EdgeOrder(edges);
    assert Elements(kept) <= Elements(edges);
    TotalOnSubset(EdgeLess, Elements(kept), Elements(edges));
    SortSorted(EdgeLess, kept);
    var active := ActiveEdges(nodes, superseded, edges);
    forall i, j | 0 <= i < j < |active|
      ensures !EdgePrecedes(active[j], active[i])
    {
      EdgeLessMeaning(active[j], active[i]);
    }
  }

  lemma ActiveEdgesDistinct(nodes: map<string, Node>, superseded: set<string>, edges: seq<Edge>)
    requires DistinctEdgeIds(edges)
    ensures DistinctEdgeIds(ActiveEdges(nodes, superseded, edges))
    ensures forall e :: e in ActiveEdges(nodes, superseded, edges) <==>
                        e in edges && IsActiveEdge(nodes, superseded, e)
  {
    EdgeOrder(edges);
    var p := (e: Edge) => IsActiveEdge(nodes, superseded, e);
    FilterDistinct(p, edges);
    PermutationDistinct(Filter(p, edges), ActiveEdges(nodes, superseded, edges));
    SubDistinctEdgeIds(edges, ActiveEdges(nodes, superseded, edges));
  }

  /** Grouping by source, each group in the order of the list. */
  function OutgoingMap(edges: seq<Edge>): map<string, seq<Edge>> {
    if edges == [] then map[]
    else
      var rest := OutgoingMap(edges[1..]);
      rest[edges[0].sourceId := [edges[0]] + Outgoing(rest, edges[0].sourceId)]
  }

  function Outgoing(outgoing: map<string, seq<Edge>>, id: string): seq<Edge> {
    if id in outgoing then outgoing[id] else []
  }

  function From(edges: seq<Edge>, id: string): seq<Edge> {
    Filter((e: Edge) => e.sourceId == id, edges)
  }

  /** The grouped map answers exactly the sublist of edges leaving a node. */
  lemma {:induction false} OutgoingMeaning(edges: seq<Edge>, id: string)
    ensures Outgoing(OutgoingMap(edges), id) == From(edges, id)
  {
    if edges != [] {
      OutgoingMeaning(edges[1..], id);
      OutgoingMeaning(edges[1..], edges[0].sourceId);
    }
  }

  // ----- maps keyed by id

  ghost predicate KeyedNodes(m: map<string, Node>) {
    forall id :: id in m ==> m[id].id == id
  }

  ghost predicate KeyedEdges(m: map<string, Edge>) {
    forall id :: id in m ==> m[id].id == id
  }

  /** The values of a map keyed by id are exactly the records found under their own id. */
  lemma NodeValuesMembers(m: map<string, Node>)
    requires KeyedNodes(m)
    ensures forall n :: n in Values(m) <==> n.id in m && m[n.id] == n
  {
    ValuesMembers(m);
    forall n | n in Values(m)
      ensures n.id in m && m[n.id] == n
    {
      var k :| k in m && m[k] == n;
    }
  }

  lemma EdgeValuesMembers(m: map<string, Edge>)
    requires KeyedEdges(m)
    ensures forall e :: e in Values(m) <==> e.id in m && m[e.id] == e
  {
    ValuesMembers(m);
    forall e | e in Values(m)
      ensures e.id in m && m[e.id] == e
    {
      var k :| k in m && m[k] == e;
    }
  }
}
