/** Which part of a response depends on the order of the request's lists. */
module OrderIrrelevance {
  import opened Wrappers
  import opened Sequences
  import opened Ordering
  import opened Duplicates
  import opened Model
  import opened Proof
  import opened Graph
  import opened Traversal
  import opened Evaluator
  import opened Meaning
  import opened Verdicts

  /** The same request with its three lists rearranged. */
  ghost predicate Rearranged(r: Request, s: Request) {
    && s == r.(nodes := s.nodes, edges := s.edges, conflicts := s.conflicts)
    && multiset(s.nodes) == multiset(r.nodes)
    && multiset(s.edges) == multiset(r.edges)
    && multiset(s.conflicts) == multiset(r.conflicts)
  }

  lemma RearrangedMembers(r: Request, s: Request)
    requires Rearranged(r, s)
    ensures |s.nodes| == |r.nodes| && |s.edges| == |r.edges|
    ensures forall n :: n in s.nodes <==> n in r.nodes
    ensures forall e :: e in s.edges <==> e in r.edges
    ensures forall c :: c in s.conflicts <==> c in r.conflicts
  {
    PermutationMembers(s.nodes, r.nodes);
    PermutationMembers(s.edges, r.edges);
    PermutationMembers(s.conflicts, r.conflicts);
  }

  // ----- validation

  lemma DuplicatePermutation(s: seq<string>, t: seq<string>)
    requires multiset(s) == multiset(t)
    ensures Duplicate(s) == Duplicate(t)
  {
    StringOrder();
    SortPermutation(StringLess, s, t);
  }

  /** The checks before the reference checks do not see the order at all. */
  lemma ShapeRearranged(r: Request, s: Request)
    requires Rearranged(r, s)
    ensures ValidateShape(s) == ValidateShape(r)
  {
    assert |s.nodes| == |r.nodes| && |s.edges| == |r.edges| by {
      RearrangedMembers(r, s);
    }
    IdsRearranged(r, s);
  }

  lemma IdsRearranged(r: Request, s: Request)
    requires Rearranged(r, s)
    ensures ValidateIds(s) == ValidateIds(r)
  {
    MapSameNodes(s.nodes, r.nodes);
    MapSameEdges(s.edges, r.edges);
    DuplicatePermutation(NodeIds(s.nodes), NodeIds(r.nodes));
    DuplicatePermutation(EdgeIds(s.edges), EdgeIds(r.edges));
  }

  lemma MapSameNodes(s: seq<Node>, t: seq<Node>)
    requires multiset(s) == multiset(t)
    ensures multiset(NodeIds(s)) == multiset(NodeIds(t))
  {
    var id := (n: Node) => n.id;
    MapPermutation(id, s, t);
    assert NodeIds(s) == Map(id, s) && NodeIds(t) == Map(id, t);
  }

  lemma MapSameEdges(s: seq<Edge>, t: seq<Edge>)
    requires multiset(s) == multiset(t)
    ensures multiset(EdgeIds(s)) == multiset(EdgeIds(t))
  {
    var id := (e: Edge) => e.id;
    MapPermutation(id, s, t);
    assert EdgeIds(s) == Map(id, s) && EdgeIds(t) == Map(id, t);
  }

  lemma KeysRearranged(r: Request, s: Request)
    requires Rearranged(r, s)
    ensures NodeMap(s.nodes).Keys == NodeMap(r.nodes).Keys
  {
    RearrangedMembers(r, s);
    NodeMapKeys(r.nodes);
    NodeMapKeys(s.nodes);
  }

  // ----- accepted requests

  lemma NodeMapRearranged(r: Request, s: Request)
    requires Rearranged(r, s) && DistinctNodeIds(r.nodes) && DistinctNodeIds(s.nodes)
    ensures NodeMap(s.nodes) == NodeMap(r.nodes)
  {
    RearrangedMembers(r, s);
    KeysRearranged(r, s);
    NodeMapLookup(r.nodes);
    NodeMapLookup(s.nodes);
    forall id | id in NodeMap(s.nodes)
      ensures NodeMap(s.nodes)[id] == NodeMap(r.nodes)[id]
    {
      assert NodeMap(s.nodes)[id] in r.nodes;
    }
  }

  lemma HasNodeRearranged(r: Request, s: Request)
    requires Rearranged(r, s)
    ensures forall id :: HasNode(s, id) <==> HasNode(r, id)
  {
    KeysRearranged(r, s);
    IndexedMeaning(r);
    IndexedMeaning(s);
  }

  lemma WellShapedRearranged(r: Request, s: Request)
    requires Rearranged(r, s)
    ensures WellShaped(s) <==> WellShaped(r)
  {
    ShapeRearranged(r, s);
    ShapeMeaning(r);
    ShapeMeaning(s);
  }

  lemma WellFormedRearranged(r: Request, s: Request)
    requires Rearranged(r, s)
    ensures WellFormed(s) <==> WellFormed(r)
  {
    RearrangedMembers(r, s);
    WellShapedRearranged(r, s);
    HasNodeRearranged(r, s);
  }

  lemma SupersededRearranged(nodes: map<string, Node>, s: seq<Edge>, t: seq<Edge>)
    requires forall e :: e in s <==> e in t
    ensures SupersededNodes(nodes, s) == SupersededNodes(nodes, t)
  {
    forall id
      ensures id in SupersededNodes(nodes, s) <==> id in SupersededNodes(nodes, t)
    {
      SupersededMeaning(nodes, s, id);
      SupersededMeaning(nodes, t, id);
    }
  }

  lemma ActiveEdgesRearranged(nodes: map<string, Node>, superseded: set<string>, s: seq<Edge>, t: seq<Edge>)
    requires multiset(s) == multiset(t)
    requires DistinctEdgeIds(s)
    ensures ActiveEdges(nodes, superseded, s) == ActiveEdges(nodes, superseded, t)
  {
    var p := (e: Edge) => IsActiveEdge(nodes, superseded, e);
    FilterPermutation(p, s, t);
    EdgeOrder(s);
    assert Elements(Filter(p, s)) <= Elements(s);
    TotalOnSubset(EdgeLess, Elements(Filter(p, s)), Elements(s));
    SortPermutation(EdgeLess, Filter(p, s), Filter(p, t));
    FilterSame(p, nodes, superseded, s);
    FilterSame(p, nodes, superseded, t);
  }

  lemma FilterSame(p: Edge -> bool, nodes: map<string, Node>, superseded: set<string>, s: seq<Edge>)
    requires forall e: Edge :: p(e) == IsActiveEdge(nodes, superseded, e)
    ensures ActiveEdges(nodes, superseded, s) == Sort(EdgeLess, Filter(p, s))
  {
    FilterFilter(p, (e: Edge) => true, (e: Edge) => IsActiveEdge(nodes, superseded, e), s);
    FilterAll((e: Edge) => true, s);
  }

  lemma {:induction false} FilterAll<T(!new)>(p: T -> bool, s: seq<T>)
    requires forall x :: x in s ==> p(x)
    ensures Filter(p, s) == s
  {
    if s != [] {
      FilterAll(p, s[1..]);
      assert s == [s[0]] + s[1..];
    }
  }

  lemma ViewRearranged(r: Request, s: Request)
    requires Rearranged(r, s) && WellFormed(r)
    ensures KernelView(s) == KernelView(r)
  {
    RearrangedMembers(r, s);
    WellFormedRearranged(r, s);
    NodeMapRearranged(r, s);
    SupersededRearranged(NodeMap(r.nodes), s.edges, r.edges);
    ActiveEdgesRearranged(NodeMap(r.nodes), SupersededNodes(NodeMap(r.nodes), r.edges), s.edges, r.edges);
  }

  lemma ConflictsRearranged(r: Request, s: Request, view: View, reachable: set<string>)
    requires Rearranged(r, s)
    ensures ConflictsFound(s, view, reachable) == ConflictsFound(r, view, reachable)
  {
    RearrangedMembers(r, s);
    ConflictOrder();
    var found := StructuredConflicts(view.nodes, view.superseded);
    var p := (c: Conflict) => IsMaterial(view, reachable, c);
    forall c
      ensures c in ConflictsFound(s, view, reachable) <==> c in ConflictsFound(r, view, reachable)
    {
      MaterialMembers(view, reachable, s.conflicts + found, c);
      MaterialMembers(view, reachable, r.conflicts + found, c);
    }
    MaterialSorted(view, reachable, s.conflicts + found);
    MaterialSorted(view, reachable, r.conflicts + found);
    StrictlySortedEqual(ConflictLess, ConflictsFound(s, view, reachable), ConflictsFound(r, view, reachable));
  }

  lemma MaterialSorted(view: View, reachable: set<string>, conflicts: seq<Conflict>)
    ensures StrictlySorted(ConflictLess, MaterialConflicts(view, reachable, conflicts))
  {
    ConflictOrder();
    SortUniqueSorted(ConflictLess, Filter((c: Conflict) => IsMaterial(view, reachable, c), conflicts));
  }

  /** Rearranging an accepted request changes nothing in the response. */
  lemma InputOrderIrrelevant(r: Request, s: Request)
    requires Rearranged(r, s)
    requires WellFormed(r)
    ensures Evaluation(s) == Evaluation(r)
  {
    WellFormedRearranged(r, s);
    ViewRearranged(r, s);
    ValidateMeaning(r);
    ValidateMeaning(s);
    TraversedMeaning(r);
    if Evaluation(r).ProofResponse? {
      ConflictsRearranged(r, s, KernelView(r), Traversed(r.goal, KernelView(r)).value.reachable);
    }
  }

  // ----- refused requests

  function ErrorOf(r: Request): Option<ErrorCode> {
    match Evaluation(r)
    case ErrorResponse(_, _, error) => Some(error.code)
    case ProofResponse(_, _, _, _) => None
  }

  lemma ReferenceCodeRearranged(r: Request, s: Request, ids: set<string>)
    requires Rearranged(r, s)
    ensures ValidateReferences(s, ids).Some? == ValidateReferences(r, ids).Some?
    ensures ValidateReferences(r, ids).Some? ==>
              ValidateReferences(s, ids).value.code == ValidateReferences(r, ids).value.code
  {
    RearrangedMembers(r, s);
  }

  /** Rearranging any request never changes whether it is answered, nor the error code. */
  lemma ErrorCodeOrderIrrelevant(r: Request, s: Request)
    requires Rearranged(r, s)
    ensures ErrorOf(s) == ErrorOf(r)
  {
    if WellFormed(r) {
      InputOrderIrrelevant(r, s);
    } else {
      ShapeRearranged(r, s);
      KeysRearranged(r, s);
      ReferenceCodeRearranged(r, s, NodeMap(r.nodes).Keys);
      ValidateMeaning(r);
    }
  }

  ghost predicate TwoDanglingEdges(r: Request, ids: set<string>) {
    exists e, f ::
      e in r.edges && f in r.edges && DanglingEdge(ids, e) && DanglingEdge(ids, f) && e.id != f.id
  }

  ghost predicate TwoDanglingConflicts(r: Request, ids: set<string>) {
    && (forall e :: e in r.edges ==> !DanglingEdge(ids, e))
    && exists c, d ::
         c in r.conflicts && d in r.conflicts
         && DanglingConflict(ids, c) && DanglingConflict(ids, d) && c.ruleId != d.ruleId
  }

  /** Validation reaches the reference checks and finds two different ids to report. */
  ghost predicate Ambiguous(r: Request) {
    && WellShaped(r)
    && HasNode(r, r.goal.targetId)
    && (TwoDanglingEdges(r, NodeMap(r.nodes).Keys) || TwoDanglingConflicts(r, NodeMap(r.nodes).Keys))
  }

  lemma UnambiguousReference(r: Request, s: Request, ids: set<string>)
    requires Rearranged(r, s)
    requires r.goal.targetId in ids ==> !TwoDanglingEdges(r, ids) && !TwoDanglingConflicts(r, ids)
    ensures ValidateReferences(s, ids) == ValidateReferences(r, ids)
  {
    RearrangedMembers(r, s);
  }

  lemma UnambiguousErrors(r: Request, s: Request)
    requires Rearranged(r, s) && !Ambiguous(r) && !WellFormed(r)
    ensures Evaluation(s) == Evaluation(r)
  {
    ShapeRearranged(r, s);
    ShapeMeaning(r);
    KeysRearranged(r, s);
    IndexedMeaning(r);
    ValidateMeaning(r);
    if WellShaped(r) {
      UnambiguousReference(r, s, NodeMap(r.nodes).Keys);
    }
  }

  /** Bring the element at `i` to the front. */
  function ToFront<T>(s: seq<T>, i: nat): (t: seq<T>)
    requires i < |s|
    ensures multiset(t) == multiset(s)
    ensures t != [] && t[0] == s[i]
  {
    assert s == s[..i] + [s[i]] + s[i + 1..];
    [s[i]] + s[..i] + s[i + 1..]
  }

  lemma EdgeToFront(r: Request, i: nat) returns (s: Request)
    requires WellShaped(r) && HasNode(r, r.goal.targetId)
    requires i < |r.edges| && DanglingEdge(NodeMap(r.nodes).Keys, r.edges[i])
    ensures Rearranged(r, s)
    ensures Evaluation(s) == Failure(r, EdgeLeaves(r.edges[i].id))
  {
    s := r.(edges := ToFront(r.edges, i));
    ShapeRearranged(r, s);
    ShapeMeaning(r);
    IndexedMeaning(r);
    assert FirstDanglingEdge(NodeMap(s.nodes).Keys, s.edges) == Some(r.edges[i]);
  }

  lemma ConflictToFront(r: Request, i: nat) returns (s: Request)
    requires WellShaped(r) && HasNode(r, r.goal.targetId)
    requires forall e :: e in r.edges ==> !DanglingEdge(NodeMap(r.nodes).Keys, e)
    requires i < |r.conflicts| && DanglingConflict(NodeMap(r.nodes).Keys, r.conflicts[i])
    ensures Rearranged(r, s)
    ensures Evaluation(s) == Failure(r, ConflictLeaves(r.conflicts[i].ruleId))
  {
    s := r.(conflicts := ToFront(r.conflicts, i));
    ShapeRearranged(r, s);
    ShapeMeaning(r);
    IndexedMeaning(r);
    assert FirstDanglingConflict(NodeMap(s.nodes).Keys, s.conflicts) == Some(r.conflicts[i]);
  }

  lemma EdgeMessagesDiffer(a: string, b: string)
    requires a != b
    ensures EdgeLeaves(a) != EdgeLeaves(b) && ConflictLeaves(a) != ConflictLeaves(b)
  {
    if EdgeLeaves(a) == EdgeLeaves(b) {
      PrefixCancels("edge references a missing node: ", a, b);
    }
    if ConflictLeaves(a) == ConflictLeaves(b) {
      PrefixCancels("conflict references a missing node: ", a, b);
    }
  }

  /** An ambiguous request has two rearrangements with different responses. */
  lemma AmbiguousDiffers(r: Request) returns (s: Request, t: Request)
    requires Ambiguous(r)
    ensures Rearranged(r, s) && Rearranged(r, t)
    ensures Evaluation(s) != Evaluation(t)
  {
    var ids := NodeMap(r.nodes).Keys;
    if TwoDanglingEdges(r, ids) {
      var e, f :|
        e in r.edges && f in r.edges && DanglingEdge(ids, e) && DanglingEdge(ids, f) && e.id != f.id;
      var i :| 0 <= i < |r.edges| && r.edges[i] == e;
      var j :| 0 <= j < |r.edges| && r.edges[j] == f;
      s := EdgeToFront(r, i);
      t := EdgeToFront(r, j);
      EdgeMessagesDiffer(e.id, f.id);
    } else {
      var c, d :| c in r.conflicts && d in r.conflicts
                  && DanglingConflict(ids, c) && DanglingConflict(ids, d) && c.ruleId != d.ruleId;
      var i :| 0 <= i < |r.conflicts| && r.conflicts[i] == c;
      var j :| 0 <= j < |r.conflicts| && r.conflicts[j] == d;
      s := ConflictToFront(r, i);
      t := ConflictToFront(r, j);
      EdgeMessagesDiffer(c.ruleId, d.ruleId);
    }
  }

  /** The whole response, message included, is independent of the order exactly for the
      requests that are not ambiguous. */
  lemma OrderSensitivity(r: Request)
    ensures (forall s :: Rearranged(r, s) ==> Evaluation(s) == Evaluation(r)) <==> !Ambiguous(r)
  {
    if Ambiguous(r) {
      var s, t := AmbiguousDiffers(r);
      assert Evaluation(s) != Evaluation(r) || Evaluation(t) != Evaluation(r);
    } else {
      forall s | Rearranged(r, s)
        ensures Evaluation(s) == Evaluation(r)
      {
        if WellFormed(r) {
          InputOrderIrrelevant(r, s);
        } else {
          UnambiguousErrors(r, s);
        }
      }
    }
  }
}
