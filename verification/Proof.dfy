/** Paths, their canonical order, and the four shapes of a proof result. */
module Proof {
  import opened Sequences
  import opened Ordering
  import opened Model
  import Rules

  datatype RawPath = Route(nodeIds: seq<string>, edgeIds: seq<string>)

  /** A path names at least its first node. */
  type Path = p: RawPath | p.nodeIds != [] witness Route([""], [])

  function Last(p: Path): string {
    p.nodeIds[|p.nodeIds| - 1]
  }

  predicate PathLess(left: Path, right: Path) {
    if |left.edgeIds| != |right.edgeIds| then |left.edgeIds| < |right.edgeIds|
    else if left.edgeIds != right.edgeIds then StringsLess(left.edgeIds, right.edgeIds)
    else StringsLess(left.nodeIds, right.nodeIds)
  }

  predicate ConflictLess(left: Conflict, right: Conflict) {
    if left.leftNodeId != right.leftNodeId then StringLess(left.leftNodeId, right.leftNodeId)
    else if left.rightNodeId != right.rightNodeId then StringLess(left.rightNodeId, right.rightNodeId)
    else StringLess(left.ruleId, right.ruleId)
  }

  lemma PathOrder()
    ensures StrictTotalOrder(PathLess)
  {
    StringsOrder();
  }

  lemma ConflictOrder()
    ensures StrictTotalOrder(ConflictLess)
  {
    StringOrder();
  }

  function NormalizeConflicts(conflicts: seq<Conflict>): seq<Conflict> {
    SortUnique(ConflictLess, conflicts)
  }

  predicate IsPrefix(left: seq<string>, right: seq<string>) {
    if left == [] then true
    else if right == [] then false
    else left[0] == right[0] && IsPrefix(left[1..], right[1..])
  }

  lemma {:induction false} IsPrefixMeaning(left: seq<string>, right: seq<string>)
    ensures IsPrefix(left, right) <==> left <= right
  {
    if left != [] && right != [] {
      IsPrefixMeaning(left[1..], right[1..]);
      if left[0] == right[0] && left[1..] <= right[1..] {
        assert left == [left[0]] + left[1..] && right == [right[0]] + right[1..];
      }
    }
  }

  /** `other` continues `candidate` by at least one edge. */
  predicate Continues(candidate: Path, other: Path) {
    && |other.edgeIds| > |candidate.edgeIds|
    && IsPrefix(candidate.nodeIds, other.nodeIds)
    && IsPrefix(candidate.edgeIds, other.edgeIds)
  }

  predicate IsMaximal(paths: seq<Path>, candidate: Path) {
    !exists other :: other in paths && Continues(candidate, other)
  }

  function MaximalPaths(paths: seq<Path>): seq<Path> {
    Filter((candidate: Path) => IsMaximal(paths, candidate), paths)
  }

  const CHAIN_RULES: seq<string> := ["edge.current", "path.admissible", "anchor.current"]

  function ChainOf(path: Path): ProofChain {
    ProofChain(path.nodeIds, path.edgeIds, CHAIN_RULES)
  }

  function EstablishedProof(paths: seq<Path>): ProofResult {
    ProofResult(
      Established,
      Map(ChainOf, SortUnique(PathLess, MaximalPaths(paths))),
      [],
      [])
  }

  function IncompleteProof(path: Path, node: Node): ProofResult {
    ProofResult(
      if path.edgeIds == [] then NotEstablished else Partial,
      [],
      [Rules.GapFor(node)],
      [])
  }

  function ConflictedProof(conflicts: seq<Conflict>): ProofResult {
    ProofResult(Conflicted, [], [], NormalizeConflicts(conflicts))
  }
}
