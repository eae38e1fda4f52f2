/** Why the kernel refuses a request: which fault gives which code and which text. */
module Refusals {
  import opened Wrappers
  import opened Duplicates
  import opened Model
  import opened Graph
  import opened Traversal
  import opened Evaluator
  import opened Meaning
  import opened Verdicts

  /** Within the sizes the kernel accepts. */
  ghost predicate Sized(r: Request) {
    |r.nodes| <= 4_096 && |r.edges| <= 16_384
  }

  /** The goal names a kind that is no rationale, or none, or an id occurs twice. */
  ghost predicate Malformed(r: Request) {
    || r.goal.anchorKinds == []
    || (exists k :: k in r.goal.anchorKinds && k != Decision && k != WorkItem)
    || !DistinctNodeIds(r.nodes) || !DistinctEdgeIds(r.edges)
  }

  /** The target or an endpoint is no node of the request. */
  ghost predicate Dangles(r: Request) {
    || !HasNode(r, r.goal.targetId)
    || (exists e :: e in r.edges && !(HasNode(r, e.sourceId) && HasNode(r, e.targetId)))
    || (exists c :: c in r.conflicts && !(HasNode(r, c.leftNodeId) && HasNode(r, c.rightNodeId)))
  }

  ghost predicate RefusedFor(r: Request, code: ErrorCode) {
    Evaluation(r).ErrorResponse? && Evaluation(r).error.code == code
  }

  lemma FormCode(r: Request)
    ensures Malformed(r) <==> ValidateGoal(r.goal).Some? || ValidateIds(r).Some?
    ensures ValidateGoal(r.goal).Some? ==> ValidateGoal(r.goal).value.code == InvalidRequest
    ensures ValidateIds(r).Some? ==> ValidateIds(r).value.code == InvalidRequest
  {
    GoalMeaning(r.goal);
    IdsMeaning(r);
  }

  lemma ShapeCode(r: Request)
    ensures r.protocolVersion != 1 ==>
              ValidateShape(r).Some? && ValidateShape(r).value.code == UnsupportedProtocol
    ensures r.protocolVersion == 1 && !Sized(r) ==>
              ValidateShape(r).Some? && ValidateShape(r).value.code == ResourceLimit
    ensures r.protocolVersion == 1 && Sized(r) && Malformed(r) ==>
              ValidateShape(r).Some? && ValidateShape(r).value.code == InvalidRequest
    ensures r.protocolVersion == 1 && Sized(r) && !Malformed(r) ==> ValidateShape(r).None?
  {
    FormCode(r);
  }

  lemma ReferenceCode(r: Request)
    ensures if Dangles(r)
            then ValidateReferences(r, NodeMap(r.nodes).Keys).Some?
                 && ValidateReferences(r, NodeMap(r.nodes).Keys).value.code == MissingRecord
            else ValidateReferences(r, NodeMap(r.nodes).Keys).None?
  {
    ReferencesMeaning(r);
  }

  lemma ShapeRefused(r: Request)
    requires ValidateShape(r).Some?
    ensures Evaluation(r) == ErrorResponse(1, r.requestId, ValidateShape(r).value)
  {
  }

  lemma ReferencesRefused(r: Request)
    requires ValidateShape(r).None? && ValidateReferences(r, NodeMap(r.nodes).Keys).Some?
    ensures Evaluation(r) == ErrorResponse(1, r.requestId, ValidateReferences(r, NodeMap(r.nodes).Keys).value)
  {
  }

  lemma FaultlessIsWellFormed(r: Request)
    ensures WellFormed(r) <==> r.protocolVersion == 1 && Sized(r) && !Malformed(r) && !Dangles(r)
  {
  }

  /** The code of a refusal says which fault was found: the version, the sizes, the shape, the
      references and the number of paths are looked at in this order. */
  lemma RefusedExactly(r: Request)
    ensures RefusedFor(r, UnsupportedProtocol) <==> r.protocolVersion != 1
    ensures RefusedFor(r, InvalidRequest) <==> r.protocolVersion == 1 && Sized(r) && Malformed(r)
    ensures RefusedFor(r, MissingRecord) <==> r.protocolVersion == 1 && Sized(r) && !Malformed(r) && Dangles(r)
    ensures RefusedFor(r, ResourceLimit) <==>
            && r.protocolVersion == 1
            && (!Sized(r) || (WellFormed(r) && |AllPaths(KernelView(r), r.goal.targetId)| > 65_536))
    ensures Evaluation(r).ErrorResponse? ==> Evaluation(r).requestId == r.requestId
  {
    ShapeCode(r);
    ReferenceCode(r);
    FaultlessIsWellFormed(r);
    if ValidateShape(r).Some? {
      ShapeRefused(r);
    } else if ValidateReferences(r, NodeMap(r.nodes).Keys).Some? {
      ReferencesRefused(r);
    } else {
      EvaluationMeaning(r);
    }
  }

  // ----- the texts

  ghost predicate NodeTwice(r: Request, id: string) {
    exists i, j :: 0 <= i < j < |r.nodes| && r.nodes[i].id == r.nodes[j].id == id
  }

  ghost predicate EdgeTwice(r: Request, id: string) {
    exists i, j :: 0 <= i < j < |r.edges| && r.edges[i].id == r.edges[j].id == id
  }

  lemma {:induction false} TwoPlaces(values: seq<string>, x: string) returns (i: nat, j: nat)
    requires multiset(values)[x] >= 2
    ensures i < j < |values| && values[i] == values[j] == x
  {
    assert values == [values[0]] + values[1..];
    if values[0] == x {
      i := 0;
      assert x in multiset(values[1..]);
      var k :| 0 <= k < |values[1..]| && values[1..][k] == x;
      j := k + 1;
    } else {
      i, j := TwoPlaces(values[1..], x);
      i, j := i + 1, j + 1;
    }
  }

  /** What a malformed request is told: about its goal first, then about an id that occurs twice. */
  lemma MalformedText(r: Request)
    requires r.protocolVersion == 1 && Sized(r) && Malformed(r)
    ensures Evaluation(r).ErrorResponse?
    ensures var text := Evaluation(r).error.message;
            if r.goal.anchorKinds == [] then text == "proof goal has no anchor kinds"
            else if exists k :: k in r.goal.anchorKinds && k != Decision && k != WorkItem
            then text == "proof goal contains a non-rationale anchor kind"
            else if !DistinctNodeIds(r.nodes)
            then exists id :: NodeTwice(r, id) && text == "duplicate node id: " + id
            else exists id :: EdgeTwice(r, id) && text == "duplicate edge id: " + id
  {
    ShapeCode(r);
    ShapeRefused(r);
    GoalMeaning(r.goal);
    RepeatedText(r);
  }

  lemma RepeatedNode(r: Request)
    requires !DistinctNodeIds(r.nodes)
    ensures Duplicate(NodeIds(r.nodes)).Some? && NodeTwice(r, Duplicate(NodeIds(r.nodes)).value)
  {
    var ids := NodeIds(r.nodes);
    DistinctIdsMeaning(r);
    DuplicateMeaning(ids);
    DuplicateTwice(ids);
    var i, j := TwoPlaces(ids, Duplicate(ids).value);
    assert ids[i] == r.nodes[i].id && ids[j] == r.nodes[j].id;
  }

  lemma RepeatedEdge(r: Request)
    requires !DistinctEdgeIds(r.edges)
    ensures Duplicate(EdgeIds(r.edges)).Some? && EdgeTwice(r, Duplicate(EdgeIds(r.edges)).value)
  {
    var ids := EdgeIds(r.edges);
    DistinctIdsMeaning(r);
    DuplicateMeaning(ids);
    DuplicateTwice(ids);
    var i, j := TwoPlaces(ids, Duplicate(ids).value);
    assert ids[i] == r.edges[i].id && ids[j] == r.edges[j].id;
  }

  lemma NoRepeatedNode(r: Request)
    requires DistinctNodeIds(r.nodes)
    ensures Duplicate(NodeIds(r.nodes)).None?
  {
    DistinctIdsMeaning(r);
    DuplicateMeaning(NodeIds(r.nodes));
  }

  lemma RepeatedText(r: Request)
    ensures !DistinctNodeIds(r.nodes) ==>
              ValidateIds(r).Some? &&
              exists id :: NodeTwice(r, id) && ValidateIds(r).value.message == "duplicate node id: " + id
    ensures DistinctNodeIds(r.nodes) && !DistinctEdgeIds(r.edges) ==>
              ValidateIds(r).Some? &&
              exists id :: EdgeTwice(r, id) && ValidateIds(r).value.message == "duplicate edge id: " + id
  {
    if !DistinctNodeIds(r.nodes) {
      RepeatedNode(r);
    } else {
      NoRepeatedNode(r);
      if !DistinctEdgeIds(r.edges) {
        RepeatedEdge(r);
      }
    }
  }

  /** The number in decimal notation, which the text of a refused version ends with. */
  ghost function Read(digits: string): int {
    if digits == "" then 0 else 10 * Read(digits[..|digits| - 1]) + (digits[|digits| - 1] as int - '0' as int)
  }

  ghost predicate Denotes(digits: string, n: int) {
    if n >= 0 then Read(digits) == n else digits != "" && digits[0] == '-' && Read(digits[1..]) == -n
  }

  lemma {:induction false} DigitsRead(n: nat)
    ensures Read(Digits(n)) == n
    ensures forall i :: 0 <= i < |Digits(n)| ==> '0' <= Digits(n)[i] <= '9'
  {
    if n >= 10 {
      DigitsRead(n / 10);
      assert Digits(n)[..|Digits(n)| - 1] == Digits(n / 10);
    } else {
      assert Digits(n)[..0] == "";
    }
  }

  /** What a dangling request is told: the target first, then an edge, then the rule of a conflict,
      whose endpoint is missing. */
  lemma DanglingText(r: Request)
    requires r.protocolVersion == 1 && Sized(r) && !Malformed(r) && Dangles(r)
    ensures Evaluation(r).ErrorResponse?
    ensures var text := Evaluation(r).error.message;
            if !HasNode(r, r.goal.targetId) then text == "proof target is absent from the evidence slice"
            else if exists e :: e in r.edges && !(HasNode(r, e.sourceId) && HasNode(r, e.targetId))
            then exists e :: e in r.edges && !(HasNode(r, e.sourceId) && HasNode(r, e.targetId))
                             && text == "edge references a missing node: " + e.id
            else exists c :: c in r.conflicts && !(HasNode(r, c.leftNodeId) && HasNode(r, c.rightNodeId))
                             && text == "conflict references a missing node: " + c.ruleId
  {
    ShapeCode(r);
    ReferenceCode(r);
    ReferencesRefused(r);
    IndexedMeaning(r);
    DanglingMeaning(r);
  }

  /** What a request in another version is told. */
  lemma VersionText(r: Request)
    requires r.protocolVersion != 1
    ensures Evaluation(r).ErrorResponse?
    ensures exists digits :: Denotes(digits, r.protocolVersion)
                             && Evaluation(r).error.message == "protocol version " + digits + " is unsupported"
  {
    ShapeRefused(r);
    var digits := Decimal(r.protocolVersion);
    if r.protocolVersion < 0 {
      DigitsRead(-r.protocolVersion);
      assert digits[1..] == Digits(-r.protocolVersion);
    } else {
      DigitsRead(r.protocolVersion);
    }
    assert Denotes(digits, r.protocolVersion);
    assert Evaluation(r).error.message == "protocol version " + digits + " is unsupported";
  }
}
