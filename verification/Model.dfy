/** The versioned evidence model exchanged by the host and the proof kernel. */
module Model {
  import opened Wrappers

  datatype NodeKind = CodeTarget | Change | WorkItem | Review | Decision | Verification

  datatype EdgeKind =
    | IntroducedBy
    | ChangedBy
    | IncludedInPr
    | ResolvesIssue
    | Documents
    | Supersedes
    | VerifiedBy

  datatype Status = Current | Historical

  datatype SourceKind = Git | GitHub | Document | VerificationSource | Synthetic

  datatype Origin = Origin(
    sourceKind: SourceKind,
    locator: string,
    revision: Option<string>,
    observedAt: Option<string>)

  datatype Node = Node(
    id: string,
    kind: NodeKind,
    status: Status,
    subjectId: Option<string>,
    outcomeId: Option<string>,
    origin: Origin)

  datatype Edge = Edge(
    id: string,
    kind: EdgeKind,
    sourceId: string,
    targetId: string,
    status: Status,
    origin: Origin)

  datatype Conflict = Conflict(leftNodeId: string, rightNodeId: string, ruleId: string)

  datatype Goal = Goal(targetId: string, anchorKinds: seq<NodeKind>)

  datatype Request = Request(
    protocolVersion: int,
    requestId: string,
    snapshotId: string,
    goal: Goal,
    nodes: seq<Node>,
    edges: seq<Edge>,
    conflicts: seq<Conflict>)

  datatype Verdict = Established | Partial | NotEstablished | Conflicted

  datatype GapCode =
    | TargetToChange
    | ChangeToReview
    | ChangeToWorkItem
    | WorkItemToDecision
    | DecisionToVerification
    | NoCurrentAnchor

  datatype Gap = Gap(code: GapCode, fromNodeId: Option<string>, toKind: Option<NodeKind>)

  datatype ProofChain = ProofChain(
    nodeIds: seq<string>,
    edgeIds: seq<string>,
    ruleIds: seq<string>)

  datatype ProofResult = ProofResult(
    verdict: Verdict,
    proofChains: seq<ProofChain>,
    gaps: seq<Gap>,
    conflicts: seq<Conflict>)

  datatype ErrorCode =
    | UnsupportedProtocol
    | InvalidRequest
    | MissingRecord
    | ResourceLimit
    | Internal

  datatype ProtocolError = ProtocolError(code: ErrorCode, message: string)

  datatype Response =
    | ProofResponse(
        protocolVersion: int,
        requestId: string,
        snapshotId: string,
        proof: ProofResult)
    | ErrorResponse(
        protocolVersion: int,
        requestId: string,
        error: ProtocolError)
}
