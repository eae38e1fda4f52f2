/** The proof kernel: validation, conflict detection and the choice of a verdict. */
module Evaluator {
  import opened Wrappers
  import opened Sequences
  import opened Ordering
  import opened Duplicates
  import opened Model
  import opened Proof
  import opened Graph
  import opened Traversal
  import Rules

  function Failure(request: Request, error: ProtocolError): Response {
    ErrorResponse(1, request.requestId, error)
  }

  // ----- validation

  function NodeIds(nodes: seq<Node>): (r: seq<string>) {
    Map((n: Node) => n.id, nodes)
  }

  function EdgeIds(edges: seq<Edge>): (r: seq<string>) {
    Map((e: Edge) => e.id, edges)
  }

  function FindFirst<T(!new)>(p: T -> bool, s: seq<T>): (r: Option<T>)
    ensures r.Some? ==> r.value in s && p(r.value)
    ensures r.None? ==> forall x :: x in s ==> !p(x)
  {
    if s == [] then None
    else if p(s[0]) then Some(s[0])
    else FindFirst(p, s[1..])
  }

  predicate DanglingEdge(ids: set<string>, edge: Edge) {
    edge.sourceId !in ids || edge.targetId !in ids
  }

  predicate DanglingConflict(ids: set<string>, conflict: Conflict) {
    conflict.leftNodeId !in ids || conflict.rightNodeId !in ids
  }

  function FirstDanglingEdge(ids: set<string>, edges: seq<Edge>): (r: Option<Edge>)
    ensures r.Some? ==> r.value in edges && DanglingEdge(ids, r.value)
    ensures r.None? ==> forall e :: e in edges ==> !DanglingEdge(ids, e)
  {
    FindFirst((e: Edge) => DanglingEdge(ids, e), edges)
  }

  function FirstDanglingConflict(ids: set<string>, conflicts: seq<Conflict>): (r: Option<Conflict>)
    ensures r.Some? ==> r.value in conflicts && DanglingConflict(ids, r.value)
    ensures r.None? ==> forall c :: c in conflicts ==> !DanglingConflict(ids, c)
  {
    FindFirst((c: Conflict) => DanglingConflict(ids, c), conflicts)
  }

  function Digits(n: nat): string {
    if n < 10 then [('0' as int + n) as char]
    else Digits(n / 10) + [('0' as int + n % 10) as char]
  }

  function Decimal(n: int): string {
    if n < 0 then "-" + Digits(-n) else Digits(n)
  }

  function UnsupportedVersion(version: int): ProtocolError {
    ProtocolError(UnsupportedProtocol, "protocol version " + Decimal(version) + " is unsupported")
  }

  const TOO_MANY_NODES := ProtocolError(ResourceLimit, "evidence slice exceeds the node limit")
  const TOO_MANY_EDGES := ProtocolError(ResourceLimit, "evidence slice exceeds the edge limit")
  const NO_ANCHOR_KINDS := ProtocolError(InvalidRequest, "proof goal has no anchor kinds")
  const BAD_ANCHOR_KIND :=
    ProtocolError(InvalidRequest, "proof goal contains a non-rationale anchor kind")
  const TARGET_ABSENT :=
    ProtocolError(MissingRecord, "proof target is absent from the evidence slice")

  function DuplicateNode(id: string): ProtocolError {
    ProtocolError(InvalidRequest, "duplicate node id: " + id)
  }

  function DuplicateEdge(id: string): ProtocolError {
    ProtocolError(InvalidRequest, "duplicate edge id: " + id)
  }

  function EdgeLeaves(id: string): ProtocolError {
    ProtocolError(MissingRecord, "edge references a missing node: " + id)
  }

  function ConflictLeaves(ruleId: string): ProtocolError {
    ProtocolError(MissingRecord, "conflict references a missing node: " + ruleId)
  }

  function ValidateGoal(goal: Goal): Option<ProtocolError> {
    if goal.anchorKinds == [] then Some(NO_ANCHOR_KINDS)
    else if exists k :: k in goal.anchorKinds && !Rules.ValidAnchorKind(k) then Some(BAD_ANCHOR_KIND)
    else None
  }

  function ValidateIds(request: Request): Option<ProtocolError> {
    match Duplicate(NodeIds(request.nodes))
    case Some(id) => Some(DuplicateNode(id))
    case None =>
      match Duplicate(EdgeIds(request.edges))
      case Some(id) => Some(DuplicateEdge(id))
      case None => None
  }

  /** The checks before any id is looked up. */
  function ValidateShape(request: Request): Option<ProtocolError> {
    if request.protocolVersion != 1 then Some(UnsupportedVersion(request.protocolVersion))
    else if |request.nodes| > Rules.MAX_NODES then Some(TOO_MANY_NODES)
    else if |request.edges| > Rules.MAX_EDGES then Some(TOO_MANY_EDGES)
    else if ValidateGoal(request.goal).Some? then ValidateGoal(request.goal)
    else ValidateIds(request)
  }

  /** The checks that every reference names a record of the slice. */
  function ValidateReferences(request: Request, ids: set<string>): Option<ProtocolError> {
    if request.goal.targetId !in ids then Some(TARGET_ABSENT)
    else
      match FirstDanglingEdge(ids, request.edges)
      case Some(edge) => Some(EdgeLeaves(edge.id))
      case None =>
        match FirstDanglingConflict(ids, request.conflicts)
        case Some(conflict) => Some(ConflictLeaves(conflict.ruleId))
        case None => None
  }

  function Validate(request: Request): Result<map<string, Node>, ProtocolError> {
    match ValidateShape(request)
    case Some(error) => Err(error)
    case None =>
      var nodes := NodeMap(request.nodes);
      match ValidateReferences(request, nodes.Keys)
      case Some(error) => Err(error)
      case None => Ok(nodes)
  }

  // ----- conflicts

  const SUBJECT_OUTCOME: string := "conflict.subject_outcome"

  predicate IsStructuredDecision(superseded: set<string>, node: Node) {
    && ActiveNode(superseded, node)
    && node.kind == Decision
    && node.subjectId.Some?
    && node.outcomeId.Some?
  }

  predicate Disagree(left: Node, right: Node) {
    && StringLess(left.id, right.id)
    && left.subjectId == right.subjectId
    && left.outcomeId != right.outcomeId
  }

  function Disagreements(left: Node, decisions: seq<Node>): seq<Conflict> {
    if decisions == [] then []
    else
      (if Disagree(left, decisions[0])
       then [Conflict(left.id, decisions[0].id, SUBJECT_OUTCOME)]
       else [])
      + Disagreements(left, decisions[1..])
  }

  function AllDisagreements(lefts: seq<Node>, decisions: seq<Node>): seq<Conflict> {
    if lefts == [] then []
    else Disagreements(lefts[0], decisions) + AllDisagreements(lefts[1..], decisions)
  }

  function StructuredConflicts(nodes: map<string, Node>, superseded: set<string>): seq<Conflict> {
    var decisions := Filter((n: Node) => IsStructuredDecision(superseded, n), Values(nodes));
    AllDisagreements(decisions, decisions)
  }

  predicate IsMaterial(view: View, reachable: set<string>, conflict: Conflict) {
    && conflict.leftNodeId in reachable
    && conflict.rightNodeId in reachable
    && view.Active(conflict.leftNodeId)
    && view.Active(conflict.rightNodeId)
  }

  function MaterialConflicts(view: View, reachable: set<string>, conflicts: seq<Conflict>): seq<Conflict> {
    NormalizeConflicts(Filter((c: Conflict) => IsMaterial(view, reachable, c), conflicts))
  }

  // ----- the frontier of an incomplete proof

  /** Longer first, then by node ids. */
  predicate Deeper(left: Path, right: Path) {
    if |left.edgeIds| != |right.edgeIds| then |left.edgeIds| > |right.edgeIds|
    else StringsLess(left.nodeIds, right.nodeIds)
  }

  function DeepestPath(paths: seq<Path>): (r: Path)
    requires paths != []
    ensures r in paths
  {
    var sorted := Sort(Deeper, paths);
    assert sorted[0] in sorted;
    sorted[0]
  }

  // ----- the verdict

  function ViewOf(nodes: map<string, Node>, edges: seq<Edge>): View {
    var superseded := SupersededNodes(nodes, edges);
    View(nodes, superseded, ActiveEdges(nodes, superseded, edges))
  }

  function ConflictsFound(request: Request, view: View, reachable: set<string>): seq<Conflict> {
    MaterialConflicts(
      view, reachable, request.conflicts + StructuredConflicts(view.nodes, view.superseded))
  }

  /** The proof for a completed traversal. */
  function Conclude(conflicts: seq<Conflict>, view: View, traversal: Traversal): ProofResult
    requires traversal.paths != []
    requires forall p :: p in traversal.paths ==> Last(p) in view.nodes
  {
    if conflicts != [] then ConflictedProof(conflicts)
    else if traversal.anchors != [] then EstablishedProof(traversal.anchors)
    else
      var frontier := DeepestPath(traversal.paths);
      IncompleteProof(frontier, view.nodes[Last(frontier)])
  }

  /** The kernel as a function of the request. */
  function Evaluation(request: Request): Response {
    match Validate(request)
    case Err(error) => Failure(request, error)
    case Ok(nodes) =>
      var view := ViewOf(nodes, request.edges);
      match Traversed(request.goal, view)
      case Err(error) => Failure(request, error)
      case Ok(traversal) =>
        ProofResponse(
          1, request.requestId, request.snapshotId,
          Conclude(ConflictsFound(request, view, traversal.reachable), view, traversal))
  }

  /** The kernel as it runs. */
  method Evaluate(request: Request) returns (response: Response)
    ensures response == Evaluation(request)
  {
    var validated := Validate(request);
    if validated.Err? {
      return Failure(request, validated.error);
    }
    var nodes := validated.value;
    var superseded := SupersededNodes(nodes, request.edges);
    var edges := ActiveEdges(nodes, superseded, request.edges);
    var traversed := Traverse(request.goal, nodes, superseded, edges);
    if traversed.Err? {
      return Failure(request, traversed.error);
    }
    var traversal := traversed.value;
    var view := View(nodes, superseded, edges);
    var conflicts := MaterialConflicts(
      view, traversal.reachable, request.conflicts + StructuredConflicts(nodes, superseded));
    response := ProofResponse(
      1, request.requestId, request.snapshotId, Conclude(conflicts, view, traversal));
  }
}
