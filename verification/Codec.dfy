/** The kernel's JSON encoders and decoders for requests and responses. */
module Codec {
  import opened Wrappers
  import opened Model
  import opened Json

  // ----- closed vocabularies

  function NodeKindName(x: NodeKind): string {
    match x
    case CodeTarget => "code_target"
    case Change => "change"
    case WorkItem => "work_item"
    case Review => "review"
    case Decision => "decision"
    case Verification => "verification"
  }

  function EncodeNodeKind(x: NodeKind): Value {
    String(NodeKindName(x))
  }

  function DecodeNodeKind(j: Value): Decoded<NodeKind> {
    if j == String("code_target") then Ok(CodeTarget)
    else if j == String("change") then Ok(Change)
    else if j == String("work_item") then Ok(WorkItem)
    else if j == String("review") then Ok(Review)
    else if j == String("decision") then Ok(Decision)
    else if j == String("verification") then Ok(Verification)
    else Err(Expected("node kind", "closed node-kind string"))
  }

  lemma NodeKindExact(j: Value, x: NodeKind)
    ensures DecodeNodeKind(j) == Ok(x) <==> j == EncodeNodeKind(x)
  {
  }

  lemma NodeKindCodec()
    ensures IsCodec(EncodeNodeKind, DecodeNodeKind)
  {
    forall j, x
      ensures DecodeNodeKind(j) == Ok(x) <==> Canonical(j) == EncodeNodeKind(x)
    {
      NodeKindExact(j, x);
    }
  }

  function EdgeKindName(x: EdgeKind): string {
    match x
    case IntroducedBy => "introduced_by"
    case ChangedBy => "changed_by"
    case IncludedInPr => "included_in_pr"
    case ResolvesIssue => "resolves_issue"
    case Documents => "documents"
    case Supersedes => "supersedes"
    case VerifiedBy => "verified_by"
  }

  function EncodeEdgeKind(x: EdgeKind): Value {
    String(EdgeKindName(x))
  }

  function DecodeEdgeKind(j: Value): Decoded<EdgeKind> {
    if j == String("introduced_by") then Ok(IntroducedBy)
    else if j == String("changed_by") then Ok(ChangedBy)
    else if j == String("included_in_pr") then Ok(IncludedInPr)
    else if j == String("resolves_issue") then Ok(ResolvesIssue)
    else if j == String("documents") then Ok(Documents)
    else if j == String("supersedes") then Ok(Supersedes)
    else if j == String("verified_by") then Ok(VerifiedBy)
    else Err(Expected("edge kind", "closed edge-kind string"))
  }

  lemma EdgeKindExact(j: Value, x: EdgeKind)
    ensures DecodeEdgeKind(j) == Ok(x) <==> j == EncodeEdgeKind(x)
  {
  }

  lemma EdgeKindCodec()
    ensures IsCodec(EncodeEdgeKind, DecodeEdgeKind)
  {
    forall j, x
      ensures DecodeEdgeKind(j) == Ok(x) <==> Canonical(j) == EncodeEdgeKind(x)
    {
      EdgeKindExact(j, x);
    }
  }

  function StatusName(x: Status): string {
    match x
    case Current => "current"
    case Historical => "historical"
  }

  function EncodeStatus(x: Status): Value {
    String(StatusName(x))
  }

  function DecodeStatus(j: Value): Decoded<Status> {
    if j == String("current") then Ok(Current)
    else if j == String("historical") then Ok(Historical)
    else Err(Expected("record status", "`current` or `historical`"))
  }

  lemma StatusExact(j: Value, x: Status)
    ensures DecodeStatus(j) == Ok(x) <==> j == EncodeStatus(x)
  {
  }

  lemma StatusCodec()
    ensures IsCodec(EncodeStatus, DecodeStatus)
  {
    forall j, x
      ensures DecodeStatus(j) == Ok(x) <==> Canonical(j) == EncodeStatus(x)
    {
      StatusExact(j, x);
    }
  }

  function SourceKindName(x: SourceKind): string {
    match x
    case Git => "git"
    case GitHub => "github"
    case Document => "document"
    case VerificationSource => "verification"
    case Synthetic => "synthetic"
  }

  function EncodeSourceKind(x: SourceKind): Value {
    String(SourceKindName(x))
  }

  function DecodeSourceKind(j: Value): Decoded<SourceKind> {
    if j == String("git") then Ok(Git)
    else if j == String("github") then Ok(GitHub)
    else if j == String("document") then Ok(Document)
    else if j == String("verification") then Ok(VerificationSource)
    else if j == String("synthetic") then Ok(Synthetic)
    else Err(Expected("source kind", "closed source-kind string"))
  }

  lemma SourceKindExact(j: Value, x: SourceKind)
    ensures DecodeSourceKind(j) == Ok(x) <==> j == EncodeSourceKind(x)
  {
  }

  lemma SourceKindCodec()
    ensures IsCodec(EncodeSourceKind, DecodeSourceKind)
  {
    forall j, x
      ensures DecodeSourceKind(j) == Ok(x) <==> Canonical(j) == EncodeSourceKind(x)
    {
      SourceKindExact(j, x);
    }
  }

  function VerdictName(x: Verdict): string {
    match x
    case Established => "established"
    case Partial => "partial"
    case NotEstablished => "not_established"
    case Conflicted => "conflicted"
  }

  function EncodeVerdict(x: Verdict): Value {
    String(VerdictName(x))
  }

  function DecodeVerdict(j: Value): Decoded<Verdict> {
    if j == String("established") then Ok(Established)
    else if j == String("partial") then Ok(Partial)
    else if j == String("not_established") then Ok(NotEstablished)
    else if j == String("conflicted") then Ok(Conflicted)
    else Err(Expected("verdict", "closed verdict string"))
  }

  lemma VerdictExact(j: Value, x: Verdict)
    ensures DecodeVerdict(j) == Ok(x) <==> j == EncodeVerdict(x)
  {
  }

  lemma VerdictCodec()
    ensures IsCodec(EncodeVerdict, DecodeVerdict)
  {
    forall j, x
      ensures DecodeVerdict(j) == Ok(x) <==> Canonical(j) == EncodeVerdict(x)
    {
      VerdictExact(j, x);
    }
  }

  function GapCodeName(x: GapCode): string {
    match x
    case TargetToChange => "target_to_change"
    case ChangeToReview => "change_to_review"
    case ChangeToWorkItem => "change_to_work_item"
    case WorkItemToDecision => "work_item_to_decision"
    case DecisionToVerification => "decision_to_verification"
    case NoCurrentAnchor => "no_current_anchor"
  }

  function EncodeGapCode(x: GapCode): Value {
    String(GapCodeName(x))
  }

  function DecodeGapCode(j: Value): Decoded<GapCode> {
    if j == String("target_to_change") then Ok(TargetToChange)
    else if j == String("change_to_review") then Ok(ChangeToReview)
    else if j == String("change_to_work_item") then Ok(ChangeToWorkItem)
    else if j == String("work_item_to_decision") then Ok(WorkItemToDecision)
    else if j == String("decision_to_verification") then Ok(DecisionToVerification)
    else if j == String("no_current_anchor") then Ok(NoCurrentAnchor)
    else Err(Expected("gap code", "closed gap-code string"))
  }

  lemma GapCodeExact(j: Value, x: GapCode)
    ensures DecodeGapCode(j) == Ok(x) <==> j == EncodeGapCode(x)
  {
  }

  lemma GapCodeCodec()
    ensures IsCodec(EncodeGapCode, DecodeGapCode)
  {
    forall j, x
      ensures DecodeGapCode(j) == Ok(x) <==> Canonical(j) == EncodeGapCode(x)
    {
      GapCodeExact(j, x);
    }
  }

  function ErrorCodeName(x: ErrorCode): string {
    match x
    case UnsupportedProtocol => "unsupported_protocol"
    case InvalidRequest => "invalid_request"
    case MissingRecord => "missing_record"
    case ResourceLimit => "resource_limit"
    case Internal => "internal"
  }

  function EncodeErrorCode(x: ErrorCode): Value {
    String(ErrorCodeName(x))
  }

  function DecodeErrorCode(j: Value): Decoded<ErrorCode> {
    if j == String("unsupported_protocol") then Ok(UnsupportedProtocol)
    else if j == String("invalid_request") then Ok(InvalidRequest)
    else if j == String("missing_record") then Ok(MissingRecord)
    else if j == String("resource_limit") then Ok(ResourceLimit)
    else if j == String("internal") then Ok(Internal)
    else Err(Expected("error code", "closed error-code string"))
  }

  lemma ErrorCodeExact(j: Value, x: ErrorCode)
    ensures DecodeErrorCode(j) == Ok(x) <==> j == EncodeErrorCode(x)
  {
  }

  lemma ErrorCodeCodec()
    ensures IsCodec(EncodeErrorCode, DecodeErrorCode)
  {
    forall j, x
      ensures DecodeErrorCode(j) == Ok(x) <==> Canonical(j) == EncodeErrorCode(x)
    {
      ErrorCodeExact(j, x);
    }
  }

  // ----- records and lists

  function EncodeStrings(xs: seq<string>): Value {
    EncodeList(EncodeString, xs)
  }

  function DecodeStrings(j: Value): Decoded<seq<string>> {
    DecodeList(DecodeString, j)
  }

  lemma StringsCodec()
    ensures IsCodec(EncodeStrings, DecodeStrings)
  {
    StringCodec();
    ListCodec(EncodeString, DecodeString, EncodeStrings, DecodeStrings);
  }

  function EncodeNodeKinds(xs: seq<NodeKind>): Value {
    EncodeList(EncodeNodeKind, xs)
  }

  function DecodeNodeKinds(j: Value): Decoded<seq<NodeKind>> {
    DecodeList(DecodeNodeKind, j)
  }

  lemma NodeKindsCodec()
    ensures IsCodec(EncodeNodeKinds, DecodeNodeKinds)
  {
    NodeKindCodec();
    ListCodec(EncodeNodeKind, DecodeNodeKind, EncodeNodeKinds, DecodeNodeKinds);
  }

  const ORIGIN_KEYS := ["locator", "observed_at", "revision", "source_kind"]

  function OriginEntries(x: Origin): seq<Entry> {
    [
      Entry("locator", Some(EncodeString(x.locator))),
      Entry("observed_at", EncodeOption(EncodeString, x.observedAt)),
      Entry("revision", EncodeOption(EncodeString, x.revision)),
      Entry("source_kind", Some(EncodeSourceKind(x.sourceKind)))
    ]
  }

  function EncodeOrigin(x: Origin): Value {
    Object(OriginEntries(x))
  }

  function OriginOfFields(values: seq<Field>): Decoded<Origin> {
    var sourceKind :- Required("origin", "source_kind", DecodeSourceKind, values);
    var locator :- Required("origin", "locator", DecodeString, values);
    var revision :- Optional("origin", "revision", DecodeString, values);
    var observedAt :- Optional("origin", "observed_at", DecodeString, values);
    Ok(Origin(sourceKind, locator, revision, observedAt))
  }

  function DecodeOrigin(j: Value): Decoded<Origin> {
    DecodeRecord("origin", ORIGIN_KEYS, OriginOfFields, j)
  }

  lemma OriginFields(values: seq<Field>, x: Origin)
    ensures OriginOfFields(values) == Ok(x) <==> Answers(values, OriginEntries(x))
  {
    StringCodec();
    SourceKindCodec();
    RequiredExact("origin", "locator", EncodeString, DecodeString, values, x.locator);
    OptionalExact("origin", "observed_at", EncodeString, DecodeString, values, x.observedAt);
    OptionalExact("origin", "revision", EncodeString, DecodeString, values, x.revision);
    RequiredExact("origin", "source_kind", EncodeSourceKind, DecodeSourceKind, values, x.sourceKind);
    AnswersEach(values, OriginEntries(x));
  }

  lemma OriginEntry(x: Origin)
    ensures KeysAre(ORIGIN_KEYS, OriginEntries(x)) && OrderedEntries(OriginEntries(x))
  {
    StringCodec();
    SourceKindCodec();
  }

  lemma OriginCodec()
    ensures IsCodec(EncodeOrigin, DecodeOrigin)
  {
    forall x
      ensures KeysAre(ORIGIN_KEYS, OriginEntries(x)) && OrderedEntries(OriginEntries(x))
    {
      OriginEntry(x);
    }
    forall values, x
      ensures OriginOfFields(values) == Ok(x) <==> Answers(values, OriginEntries(x))
    {
      OriginFields(values, x);
    }
    RecordCodec("origin", ORIGIN_KEYS, OriginEntries, OriginOfFields, EncodeOrigin, DecodeOrigin);
  }

  const NODE_KEYS := ["id", "kind", "origin", "outcome_id", "status", "subject_id"]

  function NodeEntries(x: Node): seq<Entry> {
    [
      Entry("id", Some(EncodeString(x.id))),
      Entry("kind", Some(EncodeNodeKind(x.kind))),
      Entry("origin", Some(EncodeOrigin(x.origin))),
      Entry("outcome_id", EncodeOption(EncodeString, x.outcomeId)),
      Entry("status", Some(EncodeStatus(x.status))),
      Entry("subject_id", EncodeOption(EncodeString, x.subjectId))
    ]
  }

  function EncodeNode(x: Node): Value {
    Object(NodeEntries(x))
  }

  function NodeOfFields(values: seq<Field>): Decoded<Node> {
    var id :- Required("node", "id", DecodeString, values);
    var kind :- Required("node", "kind", DecodeNodeKind, values);
    var status :- Required("node", "status", DecodeStatus, values);
    var subjectId :- Optional("node", "subject_id", DecodeString, values);
    var outcomeId :- Optional("node", "outcome_id", DecodeString, values);
    var origin :- Required("node", "origin", DecodeOrigin, values);
    Ok(Node(id, kind, status, subjectId, outcomeId, origin))
  }

  function DecodeNode(j: Value): Decoded<Node> {
    DecodeRecord("node", NODE_KEYS, NodeOfFields, j)
  }

  lemma NodeFields(values: seq<Field>, x: Node)
    ensures NodeOfFields(values) == Ok(x) <==> Answers(values, NodeEntries(x))
  {
    StringCodec();
    NodeKindCodec();
    OriginCodec();
    StatusCodec();
    RequiredExact("node", "id", EncodeString, DecodeString, values, x.id);
    RequiredExact("node", "kind", EncodeNodeKind, DecodeNodeKind, values, x.kind);
    RequiredExact("node", "origin", EncodeOrigin, DecodeOrigin, values, x.origin);
    OptionalExact("node", "outcome_id", EncodeString, DecodeString, values, x.outcomeId);
    RequiredExact("node", "status", EncodeStatus, DecodeStatus, values, x.status);
    OptionalExact("node", "subject_id", EncodeString, DecodeString, values, x.subjectId);
    AnswersEach(values, NodeEntries(x));
  }

  lemma NodeEntry(x: Node)
    ensures KeysAre(NODE_KEYS, NodeEntries(x)) && OrderedEntries(NodeEntries(x))
  {
    StringCodec();
    NodeKindCodec();
    OriginCodec();
    StatusCodec();
  }

  lemma NodeCodec()
    ensures IsCodec(EncodeNode, DecodeNode)
  {
    forall x
      ensures KeysAre(NODE_KEYS, NodeEntries(x)) && OrderedEntries(NodeEntries(x))
    {
      NodeEntry(x);
    }
    forall values, x
      ensures NodeOfFields(values) == Ok(x) <==> Answers(values, NodeEntries(x))
    {
      NodeFields(values, x);
    }
    RecordCodec("node", NODE_KEYS, NodeEntries, NodeOfFields, EncodeNode, DecodeNode);
  }

  function EncodeNodes(xs: seq<Node>): Value {
    EncodeList(EncodeNode, xs)
  }

  function DecodeNodes(j: Value): Decoded<seq<Node>> {
    DecodeList(DecodeNode, j)
  }

  lemma NodesCodec()
    ensures IsCodec(EncodeNodes, DecodeNodes)
  {
    NodeCodec();
    ListCodec(EncodeNode, DecodeNode, EncodeNodes, DecodeNodes);
  }

  const EDGE_KEYS := ["id", "kind", "origin", "source_id", "status", "target_id"]

  function EdgeEntries(x: Edge): seq<Entry> {
    [
      Entry("id", Some(EncodeString(x.id))),
      Entry("kind", Some(EncodeEdgeKind(x.kind))),
      Entry("origin", Some(EncodeOrigin(x.origin))),
      Entry("source_id", Some(EncodeString(x.sourceId))),
      Entry("status", Some(EncodeStatus(x.status))),
      Entry("target_id", Some(EncodeString(x.targetId)))
    ]
  }

  function EncodeEdge(x: Edge): Value {
    Object(EdgeEntries(x))
  }

  function EdgeOfFields(values: seq<Field>): Decoded<Edge> {
    var id :- Required("edge", "id", DecodeString, values);
    var kind :- Required("edge", "kind", DecodeEdgeKind, values);
    var sourceId :- Required("edge", "source_id", DecodeString, values);
    var targetId :- Required("edge", "target_id", DecodeString, values);
    var status :- Required("edge", "status", DecodeStatus, values);
    var origin :- Required("edge", "origin", DecodeOrigin, values);
    Ok(Edge(id, kind, sourceId, targetId, status, origin))
  }

  function DecodeEdge(j: Value): Decoded<Edge> {
    DecodeRecord("edge", EDGE_KEYS, EdgeOfFields, j)
  }

  lemma EdgeFields(values: seq<Field>, x: Edge)
    ensures EdgeOfFields(values) == Ok(x) <==> Answers(values, EdgeEntries(x))
  {
    StringCodec();
    EdgeKindCodec();
    OriginCodec();
    StatusCodec();
    RequiredExact("edge", "id", EncodeString, DecodeString, values, x.id);
    RequiredExact("edge", "kind", EncodeEdgeKind, DecodeEdgeKind, values, x.kind);
    RequiredExact("edge", "origin", EncodeOrigin, DecodeOrigin, values, x.origin);
    RequiredExact("edge", "source_id", EncodeString, DecodeString, values, x.sourceId);
    RequiredExact("edge", "status", EncodeStatus, DecodeStatus, values, x.status);
    RequiredExact("edge", "target_id", EncodeString, DecodeString, values, x.targetId);
    AnswersEach(values, EdgeEntries(x));
  }

  lemma EdgeEntry(x: Edge)
    ensures KeysAre(EDGE_KEYS, EdgeEntries(x)) && OrderedEntries(EdgeEntries(x))
  {
    StringCodec();
    EdgeKindCodec();
    OriginCodec();
    StatusCodec();
  }

  lemma EdgeCodec()
    ensures IsCodec(EncodeEdge, DecodeEdge)
  {
    forall x
      ensures KeysAre(EDGE_KEYS, EdgeEntries(x)) && OrderedEntries(EdgeEntries(x))
    {
      EdgeEntry(x);
    }
    forall values, x
      ensures EdgeOfFields(values) == Ok(x) <==> Answers(values, EdgeEntries(x))
    {
      EdgeFields(values, x);
    }
    RecordCodec("edge", EDGE_KEYS, EdgeEntries, EdgeOfFields, EncodeEdge, DecodeEdge);
  }

  function EncodeEdges(xs: seq<Edge>): Value {
    EncodeList(EncodeEdge, xs)
  }

  function DecodeEdges(j: Value): Decoded<seq<Edge>> {
    DecodeList(DecodeEdge, j)
  }

  lemma EdgesCodec()
    ensures IsCodec(EncodeEdges, DecodeEdges)
  {
    EdgeCodec();
    ListCodec(EncodeEdge, DecodeEdge, EncodeEdges, DecodeEdges);
  }

  const CONFLICT_KEYS := ["left_node_id", "right_node_id", "rule_id"]

  function ConflictEntries(x: Conflict): seq<Entry> {
    [
      Entry("left_node_id", Some(EncodeString(x.leftNodeId))),
      Entry("right_node_id", Some(EncodeString(x.rightNodeId))),
      Entry("rule_id", Some(EncodeString(x.ruleId)))
    ]
  }

  function EncodeConflict(x: Conflict): Value {
    Object(ConflictEntries(x))
  }

  function ConflictOfFields(values: seq<Field>): Decoded<Conflict> {
    var leftNodeId :- Required("conflict", "left_node_id", DecodeString, values);
    var rightNodeId :- Required("conflict", "right_node_id", DecodeString, values);
    var ruleId :- Required("conflict", "rule_id", DecodeString, values);
    Ok(Conflict(leftNodeId, rightNodeId, ruleId))
  }

  function DecodeConflict(j: Value): Decoded<Conflict> {
    DecodeRecord("conflict", CONFLICT_KEYS, ConflictOfFields, j)
  }

  lemma ConflictFields(values: seq<Field>, x: Conflict)
    ensures ConflictOfFields(values) == Ok(x) <==> Answers(values, ConflictEntries(x))
  {
    StringCodec();
    RequiredExact("conflict", "left_node_id", EncodeString, DecodeString, values, x.leftNodeId);
    RequiredExact("conflict", "right_node_id", EncodeString, DecodeString, values, x.rightNodeId);
    RequiredExact("conflict", "rule_id", EncodeString, DecodeString, values, x.ruleId);
    AnswersEach(values, ConflictEntries(x));
  }

  lemma ConflictEntry(x: Conflict)
    ensures KeysAre(CONFLICT_KEYS, ConflictEntries(x)) && OrderedEntries(ConflictEntries(x))
  {
    StringCodec();
  }

  lemma ConflictCodec()
    ensures IsCodec(EncodeConflict, DecodeConflict)
  {
    forall x
      ensures KeysAre(CONFLICT_KEYS, ConflictEntries(x)) && OrderedEntries(ConflictEntries(x))
    {
      ConflictEntry(x);
    }
    forall values, x
      ensures ConflictOfFields(values) == Ok(x) <==> Answers(values, ConflictEntries(x))
    {
      ConflictFields(values, x);
    }
    RecordCodec("conflict", CONFLICT_KEYS, ConflictEntries, ConflictOfFields, EncodeConflict, DecodeConflict);
  }

  function EncodeConflicts(xs: seq<Conflict>): Value {
    EncodeList(EncodeConflict, xs)
  }

  function DecodeConflicts(j: Value): Decoded<seq<Conflict>> {
    DecodeList(DecodeConflict, j)
  }

  lemma ConflictsCodec()
    ensures IsCodec(EncodeConflicts, DecodeConflicts)
  {
    ConflictCodec();
    ListCodec(EncodeConflict, DecodeConflict, EncodeConflicts, DecodeConflicts);
  }

  const GOAL_KEYS := ["anchor_kinds", "target_id"]

  function GoalEntries(x: Goal): seq<Entry> {
    [
      Entry("anchor_kinds", Some(EncodeNodeKinds(x.anchorKinds))),
      Entry("target_id", Some(EncodeString(x.targetId)))
    ]
  }

  function EncodeGoal(x: Goal): Value {
    Object(GoalEntries(x))
  }

  function GoalOfFields(values: seq<Field>): Decoded<Goal> {
    var targetId :- Required("goal", "target_id", DecodeString, values);
    var anchorKinds :- Required("goal", "anchor_kinds", DecodeNodeKinds, values);
    Ok(Goal(targetId, anchorKinds))
  }

  function DecodeGoal(j: Value): Decoded<Goal> {
    DecodeRecord("goal", GOAL_KEYS, GoalOfFields, j)
  }

  lemma GoalFields(values: seq<Field>, x: Goal)
    ensures GoalOfFields(values) == Ok(x) <==> Answers(values, GoalEntries(x))
  {
    NodeKindsCodec();
    StringCodec();
    RequiredExact("goal", "anchor_kinds", EncodeNodeKinds, DecodeNodeKinds, values, x.anchorKinds);
    RequiredExact("goal", "target_id", EncodeString, DecodeString, values, x.targetId);
    AnswersEach(values, GoalEntries(x));
  }

  lemma GoalEntry(x: Goal)
    ensures KeysAre(GOAL_KEYS, GoalEntries(x)) && OrderedEntries(GoalEntries(x))
  {
    NodeKindsCodec();
    StringCodec();
  }

  lemma GoalCodec()
    ensures IsCodec(EncodeGoal, DecodeGoal)
  {
    forall x
      ensures KeysAre(GOAL_KEYS, GoalEntries(x)) && OrderedEntries(GoalEntries(x))
    {
      GoalEntry(x);
    }
    forall values, x
      ensures GoalOfFields(values) == Ok(x) <==> Answers(values, GoalEntries(x))
    {
      GoalFields(values, x);
    }
    RecordCodec("goal", GOAL_KEYS, GoalEntries, GoalOfFields, EncodeGoal, DecodeGoal);
  }

  const REQUEST_KEYS := ["conflicts", "edges", "goal", "nodes", "protocol_version", "request_id", "snapshot_id"]

  function RequestEntries(x: Request): seq<Entry> {
    [
      Entry("conflicts", Some(EncodeConflicts(x.conflicts))),
      Entry("edges", Some(EncodeEdges(x.edges))),
      Entry("goal", Some(EncodeGoal(x.goal))),
      Entry("nodes", Some(EncodeNodes(x.nodes))),
      Entry("protocol_version", Some(EncodeInteger(x.protocolVersion))),
      Entry("request_id", Some(EncodeString(x.requestId))),
      Entry("snapshot_id", Some(EncodeString(x.snapshotId)))
    ]
  }

  function EncodeRequest(x: Request): Value {
    Object(RequestEntries(x))
  }

  /** The first failure, or else the request. */
  function AssembleRequest(
    protocolVersion: Decoded<int>, requestId: Decoded<string>, snapshotId: Decoded<string>, goal: Decoded<Goal>,
    nodes: Decoded<seq<Node>>, edges: Decoded<seq<Edge>>, conflicts: Decoded<seq<Conflict>>): Decoded<Request>
  {
    var protocolVersion :- protocolVersion;
    var requestId :- requestId;
    var snapshotId :- snapshotId;
    var goal :- goal;
    var nodes :- nodes;
    var edges :- edges;
    var conflicts :- conflicts;
    Ok(Request(protocolVersion, requestId, snapshotId, goal, nodes, edges, conflicts))
  }

  function RequestOfFields(values: seq<Field>): Decoded<Request> {
    AssembleRequest(
      Required("request", "protocol_version", DecodeInteger, values),
      Required("request", "request_id", DecodeString, values),
      Required("request", "snapshot_id", DecodeString, values),
      Required("request", "goal", DecodeGoal, values),
      Required("request", "nodes", DecodeNodes, values),
      Required("request", "edges", DecodeEdges, values),
      Required("request", "conflicts", DecodeConflicts, values))
  }

  function DecodeRequest(j: Value): Decoded<Request> {
    DecodeRecord("request", REQUEST_KEYS, RequestOfFields, j)
  }

  lemma RequestGraph(values: seq<Field>, x: Request)
    ensures Required("request", "conflicts", DecodeConflicts, values) == Ok(x.conflicts) <==>
            Reads(values, Entry("conflicts", Some(EncodeConflicts(x.conflicts))))
    ensures Required("request", "edges", DecodeEdges, values) == Ok(x.edges) <==>
            Reads(values, Entry("edges", Some(EncodeEdges(x.edges))))
    ensures Required("request", "nodes", DecodeNodes, values) == Ok(x.nodes) <==>
            Reads(values, Entry("nodes", Some(EncodeNodes(x.nodes))))
  {
    ConflictsCodec();
    EdgesCodec();
    NodesCodec();
    RequiredExact("request", "conflicts", EncodeConflicts, DecodeConflicts, values, x.conflicts);
    RequiredExact("request", "edges", EncodeEdges, DecodeEdges, values, x.edges);
    RequiredExact("request", "nodes", EncodeNodes, DecodeNodes, values, x.nodes);
  }

  lemma RequestHead(values: seq<Field>, x: Request)
    ensures Required("request", "goal", DecodeGoal, values) == Ok(x.goal) <==>
            Reads(values, Entry("goal", Some(EncodeGoal(x.goal))))
    ensures Required("request", "protocol_version", DecodeInteger, values) == Ok(x.protocolVersion) <==>
            Reads(values, Entry("protocol_version", Some(EncodeInteger(x.protocolVersion))))
    ensures Required("request", "request_id", DecodeString, values) == Ok(x.requestId) <==>
            Reads(values, Entry("request_id", Some(EncodeString(x.requestId))))
    ensures Required("request", "snapshot_id", DecodeString, values) == Ok(x.snapshotId) <==>
            Reads(values, Entry("snapshot_id", Some(EncodeString(x.snapshotId))))
  {
    GoalCodec();
    IntegerCodec();
    StringCodec();
    RequiredExact("request", "goal", EncodeGoal, DecodeGoal, values, x.goal);
    RequiredExact("request", "protocol_version", EncodeInteger, DecodeInteger, values, x.protocolVersion);
    RequiredExact("request", "request_id", EncodeString, DecodeString, values, x.requestId);
    RequiredExact("request", "snapshot_id", EncodeString, DecodeString, values, x.snapshotId);
  }

  lemma AssembledExactly(
    protocolVersion: Decoded<int>, requestId: Decoded<string>, snapshotId: Decoded<string>, goal: Decoded<Goal>,
    nodes: Decoded<seq<Node>>, edges: Decoded<seq<Edge>>, conflicts: Decoded<seq<Conflict>>, x: Request)
    ensures AssembleRequest(protocolVersion, requestId, snapshotId, goal, nodes, edges, conflicts) == Ok(x) <==>
            && protocolVersion == Ok(x.protocolVersion) && requestId == Ok(x.requestId)
            && snapshotId == Ok(x.snapshotId) && goal == Ok(x.goal)
            && nodes == Ok(x.nodes) && edges == Ok(x.edges) && conflicts == Ok(x.conflicts)
  {
  }

  lemma RequestRead(values: seq<Field>, x: Request)
    ensures RequestOfFields(values) == Ok(x) <==>
            && Required("request", "conflicts", DecodeConflicts, values) == Ok(x.conflicts)
            && Required("request", "edges", DecodeEdges, values) == Ok(x.edges)
            && Required("request", "goal", DecodeGoal, values) == Ok(x.goal)
            && Required("request", "nodes", DecodeNodes, values) == Ok(x.nodes)
            && Required("request", "protocol_version", DecodeInteger, values) == Ok(x.protocolVersion)
            && Required("request", "request_id", DecodeString, values) == Ok(x.requestId)
            && Required("request", "snapshot_id", DecodeString, values) == Ok(x.snapshotId)
  {
    AssembledExactly(
      Required("request", "protocol_version", DecodeInteger, values),
      Required("request", "request_id", DecodeString, values),
      Required("request", "snapshot_id", DecodeString, values),
      Required("request", "goal", DecodeGoal, values),
      Required("request", "nodes", DecodeNodes, values),
      Required("request", "edges", DecodeEdges, values),
      Required("request", "conflicts", DecodeConflicts, values), x);
  }

  lemma RequestFields(values: seq<Field>, x: Request)
    ensures RequestOfFields(values) == Ok(x) <==> Answers(values, RequestEntries(x))
  {
    RequestRead(values, x);
    RequestGraph(values, x);
    RequestHead(values, x);
    AnswersEach(values, RequestEntries(x));
  }

  lemma RequestValues(x: Request)
    ensures Ordered(EncodeConflicts(x.conflicts)) && Ordered(EncodeEdges(x.edges)) && Ordered(EncodeNodes(x.nodes))
    ensures Ordered(EncodeGoal(x.goal)) && Ordered(EncodeInteger(x.protocolVersion))
    ensures Ordered(EncodeString(x.requestId)) && Ordered(EncodeString(x.snapshotId))
  {
    ConflictsCodec();
    EdgesCodec();
    GoalCodec();
    NodesCodec();
    IntegerCodec();
    StringCodec();
  }

  lemma RequestKeys(x: Request)
    ensures KeysAre(REQUEST_KEYS, RequestEntries(x))
  {
  }

  lemma RequestEntry(x: Request)
    ensures KeysAre(REQUEST_KEYS, RequestEntries(x)) && OrderedEntries(RequestEntries(x))
  {
    RequestKeys(x);
    RequestValues(x);
  }

  lemma RequestCodec()
    ensures IsCodec(EncodeRequest, DecodeRequest)
  {
    forall x
      ensures KeysAre(REQUEST_KEYS, RequestEntries(x)) && OrderedEntries(RequestEntries(x))
    {
      RequestEntry(x);
    }
    forall values, x
      ensures RequestOfFields(values) == Ok(x) <==> Answers(values, RequestEntries(x))
    {
      RequestFields(values, x);
    }
    RecordCodec("request", REQUEST_KEYS, RequestEntries, RequestOfFields, EncodeRequest, DecodeRequest);
  }

  const GAP_KEYS := ["code", "from_node_id", "to_kind"]

  function GapEntries(x: Gap): seq<Entry> {
    [
      Entry("code", Some(EncodeGapCode(x.code))),
      Entry("from_node_id", EncodeOption(EncodeString, x.fromNodeId)),
      Entry("to_kind", EncodeOption(EncodeNodeKind, x.toKind))
    ]
  }

  function EncodeGap(x: Gap): Value {
    Object(GapEntries(x))
  }

  function GapOfFields(values: seq<Field>): Decoded<Gap> {
    var code :- Required("gap", "code", DecodeGapCode, values);
    var fromNodeId :- Optional("gap", "from_node_id", DecodeString, values);
    var toKind :- Optional("gap", "to_kind", DecodeNodeKind, values);
    Ok(Gap(code, fromNodeId, toKind))
  }

  function DecodeGap(j: Value): Decoded<Gap> {
    DecodeRecord("gap", GAP_KEYS, GapOfFields, j)
  }

  lemma GapFields(values: seq<Field>, x: Gap)
    ensures GapOfFields(values) == Ok(x) <==> Answers(values, GapEntries(x))
  {
    GapCodeCodec();
    StringCodec();
    NodeKindCodec();
    RequiredExact("gap", "code", EncodeGapCode, DecodeGapCode, values, x.code);
    OptionalExact("gap", "from_node_id", EncodeString, DecodeString, values, x.fromNodeId);
    OptionalExact("gap", "to_kind", EncodeNodeKind, DecodeNodeKind, values, x.toKind);
    AnswersEach(values, GapEntries(x));
  }

  lemma GapEntry(x: Gap)
    ensures KeysAre(GAP_KEYS, GapEntries(x)) && OrderedEntries(GapEntries(x))
  {
    GapCodeCodec();
    StringCodec();
    NodeKindCodec();
  }

  lemma GapCodec()
    ensures IsCodec(EncodeGap, DecodeGap)
  {
    forall x
      ensures KeysAre(GAP_KEYS, GapEntries(x)) && OrderedEntries(GapEntries(x))
    {
      GapEntry(x);
    }
    forall values, x
      ensures GapOfFields(values) == Ok(x) <==> Answers(values, GapEntries(x))
    {
      GapFields(values, x);
    }
    RecordCodec("gap", GAP_KEYS, GapEntries, GapOfFields, EncodeGap, DecodeGap);
  }

  function EncodeGaps(xs: seq<Gap>): Value {
    EncodeList(EncodeGap, xs)
  }

  function DecodeGaps(j: Value): Decoded<seq<Gap>> {
    DecodeList(DecodeGap, j)
  }

  lemma GapsCodec()
    ensures IsCodec(EncodeGaps, DecodeGaps)
  {
    GapCodec();
    ListCodec(EncodeGap, DecodeGap, EncodeGaps, DecodeGaps);
  }

  const PROOF_CHAIN_KEYS := ["edge_ids", "node_ids", "rule_ids"]

  function ProofChainEntries(x: ProofChain): seq<Entry> {
    [
      Entry("edge_ids", Some(EncodeStrings(x.edgeIds))),
      Entry("node_ids", Some(EncodeStrings(x.nodeIds))),
      Entry("rule_ids", Some(EncodeStrings(x.ruleIds)))
    ]
  }

  function EncodeProofChain(x: ProofChain): Value {
    Object(ProofChainEntries(x))
  }

  function ProofChainOfFields(values: seq<Field>): Decoded<ProofChain> {
    var nodeIds :- Required("proof chain", "node_ids", DecodeStrings, values);
    var edgeIds :- Required("proof chain", "edge_ids", DecodeStrings, values);
    var ruleIds :- Required("proof chain", "rule_ids", DecodeStrings, values);
    Ok(ProofChain(nodeIds, edgeIds, ruleIds))
  }

  function DecodeProofChain(j: Value): Decoded<ProofChain> {
    DecodeRecord("proof chain", PROOF_CHAIN_KEYS, ProofChainOfFields, j)
  }

  lemma ProofChainFields(values: seq<Field>, x: ProofChain)
    ensures ProofChainOfFields(values) == Ok(x) <==> Answers(values, ProofChainEntries(x))
  {
    StringsCodec();
    RequiredExact("proof chain", "edge_ids", EncodeStrings, DecodeStrings, values, x.edgeIds);
    RequiredExact("proof chain", "node_ids", EncodeStrings, DecodeStrings, values, x.nodeIds);
    RequiredExact("proof chain", "rule_ids", EncodeStrings, DecodeStrings, values, x.ruleIds);
    AnswersEach(values, ProofChainEntries(x));
  }

  lemma ProofChainEntry(x: ProofChain)
    ensures KeysAre(PROOF_CHAIN_KEYS, ProofChainEntries(x)) && OrderedEntries(ProofChainEntries(x))
  {
    StringsCodec();
  }

  lemma ProofChainCodec()
    ensures IsCodec(EncodeProofChain, DecodeProofChain)
  {
    forall x
      ensures KeysAre(PROOF_CHAIN_KEYS, ProofChainEntries(x)) && OrderedEntries(ProofChainEntries(x))
    {
      ProofChainEntry(x);
    }
    forall values, x
      ensures ProofChainOfFields(values) == Ok(x) <==> Answers(values, ProofChainEntries(x))
    {
      ProofChainFields(values, x);
    }
    RecordCodec(
      "proof chain", PROOF_CHAIN_KEYS, ProofChainEntries, ProofChainOfFields, EncodeProofChain, DecodeProofChain);
  }

  function EncodeProofChains(xs: seq<ProofChain>): Value {
    EncodeList(EncodeProofChain, xs)
  }

  function DecodeProofChains(j: Value): Decoded<seq<ProofChain>> {
    DecodeList(DecodeProofChain, j)
  }

  lemma ProofChainsCodec()
    ensures IsCodec(EncodeProofChains, DecodeProofChains)
  {
    ProofChainCodec();
    ListCodec(EncodeProofChain, DecodeProofChain, EncodeProofChains, DecodeProofChains);
  }

  const PROOF_RESULT_KEYS := ["conflicts", "gaps", "proof_chains", "verdict"]

  function ProofResultEntries(x: ProofResult): seq<Entry> {
    [
      Entry("conflicts", Some(EncodeConflicts(x.conflicts))),
      Entry("gaps", Some(EncodeGaps(x.gaps))),
      Entry("proof_chains", Some(EncodeProofChains(x.proofChains))),
      Entry("verdict", Some(EncodeVerdict(x.verdict)))
    ]
  }

  function EncodeProofResult(x: ProofResult): Value {
    Object(ProofResultEntries(x))
  }

  function ProofResultOfFields(values: seq<Field>): Decoded<ProofResult> {
    var verdict :- Required("proof", "verdict", DecodeVerdict, values);
    var proofChains :- Required("proof", "proof_chains", DecodeProofChains, values);
    var gaps :- Required("proof", "gaps", DecodeGaps, values);
    var conflicts :- Required("proof", "conflicts", DecodeConflicts, values);
    Ok(ProofResult(verdict, proofChains, gaps, conflicts))
  }

  function DecodeProofResult(j: Value): Decoded<ProofResult> {
    DecodeRecord("proof", PROOF_RESULT_KEYS, ProofResultOfFields, j)
  }

  lemma ProofResultFields(values: seq<Field>, x: ProofResult)
    ensures ProofResultOfFields(values) == Ok(x) <==> Answers(values, ProofResultEntries(x))
  {
    ConflictsCodec();
    GapsCodec();
    ProofChainsCodec();
    VerdictCodec();
    RequiredExact("proof", "conflicts", EncodeConflicts, DecodeConflicts, values, x.conflicts);
    RequiredExact("proof", "gaps", EncodeGaps, DecodeGaps, values, x.gaps);
    RequiredExact("proof", "proof_chains", EncodeProofChains, DecodeProofChains, values, x.proofChains);
    RequiredExact("proof", "verdict", EncodeVerdict, DecodeVerdict, values, x.verdict);
    AnswersEach(values, ProofResultEntries(x));
  }

  lemma ProofResultEntry(x: ProofResult)
    ensures KeysAre(PROOF_RESULT_KEYS, ProofResultEntries(x)) && OrderedEntries(ProofResultEntries(x))
  {
    ConflictsCodec();
    GapsCodec();
    ProofChainsCodec();
    VerdictCodec();
  }

  lemma ProofResultCodec()
    ensures IsCodec(EncodeProofResult, DecodeProofResult)
  {
    forall x
      ensures KeysAre(PROOF_RESULT_KEYS, ProofResultEntries(x)) && OrderedEntries(ProofResultEntries(x))
    {
      ProofResultEntry(x);
    }
    forall values, x
      ensures ProofResultOfFields(values) == Ok(x) <==> Answers(values, ProofResultEntries(x))
    {
      ProofResultFields(values, x);
    }
    RecordCodec(
      "proof", PROOF_RESULT_KEYS, ProofResultEntries, ProofResultOfFields, EncodeProofResult, DecodeProofResult);
  }

  const PROTOCOL_ERROR_KEYS := ["code", "message"]

  function ProtocolErrorEntries(x: ProtocolError): seq<Entry> {
    [
      Entry("code", Some(EncodeErrorCode(x.code))),
      Entry("message", Some(EncodeString(x.message)))
    ]
  }

  function EncodeProtocolError(x: ProtocolError): Value {
    Object(ProtocolErrorEntries(x))
  }

  function ProtocolErrorOfFields(values: seq<Field>): Decoded<ProtocolError> {
    var code :- Required("error", "code", DecodeErrorCode, values);
    var message :- Required("error", "message", DecodeString, values);
    Ok(ProtocolError(code, message))
  }

  function DecodeProtocolError(j: Value): Decoded<ProtocolError> {
    DecodeRecord("error", PROTOCOL_ERROR_KEYS, ProtocolErrorOfFields, j)
  }

  lemma ProtocolErrorFields(values: seq<Field>, x: ProtocolError)
    ensures ProtocolErrorOfFields(values) == Ok(x) <==> Answers(values, ProtocolErrorEntries(x))
  {
    ErrorCodeCodec();
    StringCodec();
    RequiredExact("error", "code", EncodeErrorCode, DecodeErrorCode, values, x.code);
    RequiredExact("error", "message", EncodeString, DecodeString, values, x.message);
    AnswersEach(values, ProtocolErrorEntries(x));
  }

  lemma ProtocolErrorEntry(x: ProtocolError)
    ensures KeysAre(PROTOCOL_ERROR_KEYS, ProtocolErrorEntries(x)) && OrderedEntries(ProtocolErrorEntries(x))
  {
    ErrorCodeCodec();
    StringCodec();
  }

  lemma ProtocolErrorCodec()
    ensures IsCodec(EncodeProtocolError, DecodeProtocolError)
  {
    forall x
      ensures KeysAre(PROTOCOL_ERROR_KEYS, ProtocolErrorEntries(x)) && OrderedEntries(ProtocolErrorEntries(x))
    {
      ProtocolErrorEntry(x);
    }
    forall values, x
      ensures ProtocolErrorOfFields(values) == Ok(x) <==> Answers(values, ProtocolErrorEntries(x))
    {
      ProtocolErrorFields(values, x);
    }
    RecordCodec(
      "error", PROTOCOL_ERROR_KEYS, ProtocolErrorEntries, ProtocolErrorOfFields,
      EncodeProtocolError, DecodeProtocolError);
  }

  // ----- responses

  const PROOF_RESPONSE_KEYS := ["proof", "protocol_version", "request_id", "snapshot_id", "status"]

  const ERROR_RESPONSE_KEYS := ["error", "protocol_version", "request_id", "status"]

  function ResponseKeys(x: Response): seq<string> {
    if x.ProofResponse? then PROOF_RESPONSE_KEYS else ERROR_RESPONSE_KEYS
  }

  function ResponseEntries(x: Response): seq<Entry> {
    match x
    case ProofResponse(version, requestId, snapshotId, proof) =>
      [
        Entry("proof", Some(EncodeProofResult(proof))),
        Entry("protocol_version", Some(EncodeInteger(version))),
        Entry("request_id", Some(EncodeString(requestId))),
        Entry("snapshot_id", Some(EncodeString(snapshotId))),
        Entry("status", Some(String("proof")))
      ]
    case ErrorResponse(version, requestId, error) =>
      [
        Entry("error", Some(EncodeProtocolError(error))),
        Entry("protocol_version", Some(EncodeInteger(version))),
        Entry("request_id", Some(EncodeString(requestId))),
        Entry("status", Some(String("error")))
      ]
  }

  function EncodeResponse(x: Response): Value {
    Object(ResponseEntries(x))
  }

  function ProofResponseOfFields(values: seq<Field>): (r: Decoded<Response>)
    ensures r.Ok? ==> r.value.ProofResponse?
  {
    var protocolVersion :- Required("proof response", "protocol_version", DecodeInteger, values);
    var requestId :- Required("proof response", "request_id", DecodeString, values);
    var snapshotId :- Required("proof response", "snapshot_id", DecodeString, values);
    var proof :- Required("proof response", "proof", DecodeProofResult, values);
    Ok(ProofResponse(protocolVersion, requestId, snapshotId, proof))
  }

  function ErrorResponseOfFields(values: seq<Field>): (r: Decoded<Response>)
    ensures r.Ok? ==> r.value.ErrorResponse?
  {
    var protocolVersion :- Required("error response", "protocol_version", DecodeInteger, values);
    var requestId :- Required("error response", "request_id", DecodeString, values);
    var error :- Required("error response", "error", DecodeProtocolError, values);
    Ok(ErrorResponse(protocolVersion, requestId, error))
  }

  function DecodeResponse(j: Value): Decoded<Response> {
    match j
    case Assoc(fields) =>
      (match AssocOpt("status", fields)
       case Some(status) =>
         if status == String("proof") then
           DecodeRecord("proof response", PROOF_RESPONSE_KEYS, ProofResponseOfFields, j)
         else if status == String("error") then
           DecodeRecord("error response", ERROR_RESPONSE_KEYS, ErrorResponseOfFields, j)
         else Err(Expected("response.status", "`proof` or `error`"))
       case None => Err(MissingField("response", "status")))
    case _ => Err(Expected("response", "object"))
  }

  ghost predicate HasStatus(values: seq<Field>, status: string) {
    AssocOpt("status", values) == Some(String(status))
  }

  lemma ProofResponseFields(values: seq<Field>, x: Response)
    requires x.ProofResponse?
    ensures HasStatus(values, "proof") && ProofResponseOfFields(values) == Ok(x) <==>
            Answers(values, ResponseEntries(x))
  {
    ProofResultCodec();
    IntegerCodec();
    StringCodec();
    RequiredExact("proof response", "proof", EncodeProofResult, DecodeProofResult, values, x.proof);
    RequiredExact("proof response", "protocol_version", EncodeInteger, DecodeInteger, values, x.protocolVersion);
    RequiredExact("proof response", "request_id", EncodeString, DecodeString, values, x.requestId);
    RequiredExact("proof response", "snapshot_id", EncodeString, DecodeString, values, x.snapshotId);
    StatusReads(values, "proof");
    AnswersEach(values, ResponseEntries(x));
  }

  lemma ErrorResponseFields(values: seq<Field>, x: Response)
    requires x.ErrorResponse?
    ensures HasStatus(values, "error") && ErrorResponseOfFields(values) == Ok(x) <==>
            Answers(values, ResponseEntries(x))
  {
    ProtocolErrorCodec();
    IntegerCodec();
    StringCodec();
    RequiredExact("error response", "error", EncodeProtocolError, DecodeProtocolError, values, x.error);
    RequiredExact("error response", "protocol_version", EncodeInteger, DecodeInteger, values, x.protocolVersion);
    RequiredExact("error response", "request_id", EncodeString, DecodeString, values, x.requestId);
    StatusReads(values, "error");
    AnswersEach(values, ResponseEntries(x));
  }

  lemma StatusReads(values: seq<Field>, status: string)
    ensures HasStatus(values, status) <==> Reads(values, Entry("status", Some(String(status))))
  {
  }

  lemma StatusNames()
    ensures String("proof") != String("error")
  {
    assert "proof"[0] != "error"[0];
  }

  lemma ProofResponseEntry(x: Response)
    requires x.ProofResponse?
    ensures KeysAre(PROOF_RESPONSE_KEYS, ResponseEntries(x))
  {
  }

  lemma ErrorResponseEntry(x: Response)
    requires x.ErrorResponse?
    ensures KeysAre(ERROR_RESPONSE_KEYS, ResponseEntries(x))
  {
  }

  lemma OneNested(entries: seq<Entry>)
    requires entries != [] && entries[0].value.Some? && Ordered(entries[0].value.value)
    requires forall i :: 1 <= i < |entries| ==>
               entries[i].value.Some? && (entries[i].value.value.String? || entries[i].value.value.Int?)
    ensures OrderedEntries(entries)
  {
    forall i | 0 <= i < |entries|
      ensures Ordered(entries[i].value.value)
    {
      if i > 0 {
        assert entries[i].value.value.String? || entries[i].value.value.Int?;
      }
    }
  }

  lemma ProofResultOrdered(x: ProofResult)
    ensures Ordered(EncodeProofResult(x))
  {
    ProofResultCodec();
  }

  lemma ProtocolErrorOrdered(x: ProtocolError)
    ensures Ordered(EncodeProtocolError(x))
  {
    ProtocolErrorCodec();
  }

  lemma FiveEntries(a: Entry, b: Entry, c: Entry, d: Entry, e: Entry)
    requires a.value.Some? && Ordered(a.value.value)
    requires b.value.Some? && Ordered(b.value.value) && c.value.Some? && Ordered(c.value.value)
    requires d.value.Some? && Ordered(d.value.value) && e.value.Some? && Ordered(e.value.value)
    ensures OrderedEntries([a, b, c, d, e])
  {
  }

  lemma ProofEntryOrdered(x: Response)
    requires x.ProofResponse?
    ensures OrderedEntries(ResponseEntries(x))
  {
    ProofResultOrdered(x.proof);
    FiveEntries(
      Entry("proof", Some(EncodeProofResult(x.proof))),
      Entry("protocol_version", Some(EncodeInteger(x.protocolVersion))),
      Entry("request_id", Some(EncodeString(x.requestId))), Entry("snapshot_id", Some(EncodeString(x.snapshotId))),
      Entry("status", Some(String("proof"))));
  }

  lemma ErrorEntryOrdered(x: Response)
    requires x.ErrorResponse?
    ensures OrderedEntries(ResponseEntries(x))
  {
    ProtocolErrorOrdered(x.error);
    OneNested(ResponseEntries(x));
  }

  lemma ResponseEntry(x: Response)
    ensures KeysAre(ResponseKeys(x), ResponseEntries(x)) && OrderedEntries(ResponseEntries(x))
  {
    if x.ProofResponse? {
      ProofResponseEntry(x);
      ProofEntryOrdered(x);
    } else {
      ErrorResponseEntry(x);
      ErrorEntryOrdered(x);
    }
  }

  lemma ResponseKeysApart(x: Response)
    ensures AllApart(ResponseKeys(x))
  {
    assert AllApart(PROOF_RESPONSE_KEYS);
    assert AllApart(ERROR_RESPONSE_KEYS);
  }

  /** Records recognised by their status field first. */
  lemma TaggedExact<T(!new)>(
    context: string, allowed: seq<string>, status: string, ofFields: seq<Field> -> Decoded<T>,
    j: Value, x: T, entries: seq<Entry>)
    requires AllApart(allowed) && KeysAre(allowed, entries)
    requires forall values :: HasStatus(values, status) && ofFields(values) == Ok(x) <==> Answers(values, entries)
    ensures j.Assoc? && HasStatus(j.fields, status) && DecodeRecord(context, allowed, ofFields, j) == Ok(x) <==>
            Canonical(j) == Object(entries)
  {
    AcceptedExact(context, allowed, j, entries);
    FieldsExact(context, allowed, j);
  }

  lemma ProofDispatch(j: Value, x: Response)
    requires x.ProofResponse?
    ensures DecodeResponse(j) == Ok(x) <==>
            && j.Assoc? && HasStatus(j.fields, "proof")
            && DecodeRecord("proof response", PROOF_RESPONSE_KEYS, ProofResponseOfFields, j) == Ok(x)
  {
  }

  lemma ErrorDispatch(j: Value, x: Response)
    requires x.ErrorResponse?
    ensures DecodeResponse(j) == Ok(x) <==>
            && j.Assoc? && HasStatus(j.fields, "error")
            && DecodeRecord("error response", ERROR_RESPONSE_KEYS, ErrorResponseOfFields, j) == Ok(x)
  {
    StatusNames();
    if j.Assoc? && HasStatus(j.fields, "error") {
      assert AssocOpt("status", j.fields).value != String("proof");
    }
  }

  lemma ResponseExact(j: Value, x: Response)
    ensures DecodeResponse(j) == Ok(x) <==> Canonical(j) == EncodeResponse(x)
  {
    ResponseEntry(x);
    ResponseKeysApart(x);
    if x.ProofResponse? {
      forall values
        ensures HasStatus(values, "proof") && ProofResponseOfFields(values) == Ok(x) <==>
                Answers(values, ResponseEntries(x))
      {
        ProofResponseFields(values, x);
      }
      TaggedExact("proof response", ResponseKeys(x), "proof", ProofResponseOfFields, j, x, ResponseEntries(x));
      ProofDispatch(j, x);
    } else {
      forall values
        ensures HasStatus(values, "error") && ErrorResponseOfFields(values) == Ok(x) <==>
                Answers(values, ResponseEntries(x))
      {
        ErrorResponseFields(values, x);
      }
      TaggedExact("error response", ResponseKeys(x), "error", ErrorResponseOfFields, j, x, ResponseEntries(x));
      ErrorDispatch(j, x);
    }
  }

  lemma ResponseOrdered(x: Response)
    ensures Ordered(EncodeResponse(x))
  {
    ResponseKeysApart(x);
    ResponseEntry(x);
    ApartEntries(ResponseKeys(x), ResponseEntries(x));
    ObjectOrdered(ResponseEntries(x));
  }

  lemma ResponseCodec()
    ensures IsCodec(EncodeResponse, DecodeResponse)
  {
    forall j, x
      ensures DecodeResponse(j) == Ok(x) <==> Canonical(j) == EncodeResponse(x)
    {
      ResponseExact(j, x);
    }
    forall x
      ensures Ordered(EncodeResponse(x))
    {
      ResponseOrdered(x);
    }
  }
}
