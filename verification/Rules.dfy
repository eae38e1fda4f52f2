/** Admission rules and resource caps of the proof kernel. */
module Rules {
  import opened Wrappers
  import opened Model

  const MAX_NODES := 4_096
  const MAX_EDGES := 16_384
  const MAX_PATH_STATES := 65_536

  predicate ValidAnchorKind(kind: NodeKind) {
    kind == Decision || kind == WorkItem
  }

  predicate IsAnchor(goal: Goal, node: Node) {
    node.status == Current && node.kind in goal.anchorKinds
  }

  predicate IsTraversable(edge: Edge) {
    edge.status == Current && edge.kind != Supersedes
  }

  function GapFor(node: Node): Gap {
    match node.kind
    case CodeTarget => Gap(TargetToChange, Some(node.id), Some(Change))
    case Change => Gap(ChangeToReview, Some(node.id), Some(Review))
    case Review => Gap(ChangeToWorkItem, Some(node.id), Some(WorkItem))
    case WorkItem => Gap(WorkItemToDecision, Some(node.id), Some(Decision))
    case Decision => Gap(DecisionToVerification, Some(node.id), Some(Verification))
    case Verification => Gap(NoCurrentAnchor, Some(node.id), None)
  }
}
