/** Forge rows carried over to changed local evidence: when they are what the forge would have
    contributed, and what can be lost. */
module Carrying {
  import opened Wrappers
  import opened Model
  import opened Targets
  import opened Engine

  /** For each id the first edge that resolves: what merging takes from a contribution. */
  function Chosen(records: set<string>, edges: seq<Edge>): map<string, Edge> {
    PutAbsentEdges(map[], ResolvedEdges(records, edges))
  }

  /** For each id the first record. */
  function Supplied(records: seq<Node>): map<string, Node> {
    PutAbsent(map[], records)
  }

  lemma {:induction false} PutAbsentEdgesOverlay(m: map<string, Edge>, edges: seq<Edge>)
    ensures PutAbsentEdges(m, edges) == PutAbsentEdges(map[], edges) + m
  {
    if edges != [] {
      PutAbsentEdgesOverlay(m, edges[..|edges| - 1]);
    }
  }

  /** No earlier edge of the list has the same id and resolves. */
  ghost predicate FirstResolving(records: set<string>, edges: seq<Edge>, e: Edge) {
    exists i :: 0 <= i < |edges| && edges[i] == e && EdgeResolves(records, e) &&
      forall j :: 0 <= j < i ==> !(edges[j].id == e.id && EdgeResolves(records, edges[j]))
  }

  lemma FirstResolvingSnoc(records: set<string>, edges: seq<Edge>, last: Edge, e: Edge)
    ensures FirstResolving(records, edges + [last], e) <==>
            || FirstResolving(records, edges, e)
            || (e == last && EdgeResolves(records, e)
                && forall f :: f in edges ==> !(f.id == e.id && EdgeResolves(records, f)))
  {
    var all := edges + [last];
    if FirstResolving(records, edges, e) {
      var i :| 0 <= i < |edges| && edges[i] == e && EdgeResolves(records, e) &&
        forall j :: 0 <= j < i ==> !(edges[j].id == e.id && EdgeResolves(records, edges[j]));
      assert all[i] == e;
    } else if e == last && EdgeResolves(records, e)
        && forall f :: f in edges ==> !(f.id == e.id && EdgeResolves(records, f)) {
      assert all[|edges|] == e;
    }
    if FirstResolving(records, all, e) {
      var i :| 0 <= i < |all| && all[i] == e && EdgeResolves(records, e) &&
        forall j :: 0 <= j < i ==> !(all[j].id == e.id && EdgeResolves(records, all[j]));
      if i < |edges| {
        assert edges[i] == e && forall j :: 0 <= j < i ==> edges[j] == all[j];
      } else {
        forall f | f in edges
          ensures !(f.id == e.id && EdgeResolves(records, f))
        {
          var j :| 0 <= j < |edges| && edges[j] == f;
          assert all[j] == f;
        }
      }
    }
  }

  lemma {:induction false} ChosenIds(records: set<string>, edges: seq<Edge>)
    ensures forall k :: k in Chosen(records, edges) ==>
              Chosen(records, edges)[k].id == k && Chosen(records, edges)[k] in ResolvedEdges(records, edges)
    ensures forall e :: e in edges && EdgeResolves(records, e) ==> e.id in Chosen(records, edges)
  {
    PutAbsentEdgesMembers(map[], ResolvedEdges(records, edges));
  }

  /** An edge is chosen exactly when it is the first with its id that resolves. */
  lemma {:induction false} ChosenMeaning(records: set<string>, edges: seq<Edge>, e: Edge)
    ensures e.id in Chosen(records, edges) && Chosen(records, edges)[e.id] == e <==>
            FirstResolving(records, edges, e)
  {
    if edges != [] {
      var init, last := edges[..|edges| - 1], edges[|edges| - 1];
      ChosenMeaning(records, init, e);
      assert edges == init + [last] && edges[..|edges| - 1 + 1] == edges;
      FirstResolvingSnoc(records, init, last, e);
      AbsentEdgesStep(map[], records, edges, |edges| - 1);
      ChosenIds(records, init);
    }
  }

  // ----- what is carried over

  /** No forge record gave way to a local one that is gone now. */
  ghost predicate RecordsSurvive(before: Body, now: Body, c: Contribution) {
    forall n :: n in c.records && n.id in before.records ==> n.id in now.records
  }

  /** Every edge that would be taken now was taken then. */
  ghost predicate EdgesSurvive(before: Body, now: Body, c: Contribution) {
    var earlier := Merged(before, c.records, c.edges).records.Keys;
    var present := Merged(now, c.records, c.edges).records.Keys;
    forall e :: FirstResolving(present, c.edges, e) && e.id !in now.edges ==>
      e.id !in before.edges && FirstResolving(earlier, c.edges, e)
  }

  /** Merging as an overlay over the local rows. */
  lemma MergedOverlay(body: Body, records: seq<Node>, edges: seq<Edge>)
    ensures var m := Merged(body, records, edges);
            && m.records == Supplied(records) + body.records
            && m.edges == Chosen(m.records.Keys, edges) + body.edges
            && m.conflicts == body.conflicts
  {
    PutAbsentOverlay(body.records, records);
    PutAbsentEdgesOverlay(body.edges, ResolvedEdges(Merged(body, records, edges).records.Keys, edges));
  }

  lemma SupplyRest(base: map<string, Node>, supply: map<string, Node>, rest: seq<Node>)
    requires forall id :: id in supply ==> supply[id].id == id
    requires forall n :: n in rest <==> n.id in supply && n.id !in base && supply[n.id] == n
    ensures Supplied(rest) == supply - base.Keys
  {
    PutAbsentMeaning(map[], rest);
    forall id
      ensures id in Supplied(rest) <==> id in supply && id !in base
    {
      if id in supply && id !in base {
        assert supply[id] in rest;
      }
    }
  }

  /** Extraction gives back the supplied records that did not give way. */
  lemma ExtractedSupply(before: Body, c: Contribution)
    requires ClosedBody(before) && Local(before) && Forge(c)
    ensures var x := Extracted(Merged(before, c.records, c.edges));
            Supplied(x.records) == Supplied(c.records) - before.records.Keys
  {
    MergedOverlay(before, c.records, c.edges);
    ExtractedRecords(before, c);
    PutAbsentKeyed(map[], c.records);
    SupplyRest(before.records, Supplied(c.records), Extracted(Merged(before, c.records, c.edges)).records);
  }

  /** And the chosen edges that did not give way, as far as they resolve. */
  lemma ExtractedChoice(before: Body, c: Contribution, present: set<string>)
    requires ClosedBody(before) && Local(before) && Forge(c)
    ensures var m := Merged(before, c.records, c.edges);
            var choice := Chosen(m.records.Keys, c.edges);
            var again := Chosen(present, Extracted(m).edges);
            && (forall k :: k in again <==> k in choice && k !in before.edges && EdgeResolves(present, choice[k]))
            && (forall k :: k in again ==> again[k] == choice[k])
  {
    var m := Merged(before, c.records, c.edges);
    var choice, again := Chosen(m.records.Keys, c.edges), Chosen(present, Extracted(m).edges);
    MergedOverlay(before, c.records, c.edges);
    ExtractedEdges(before, c);
    ChosenIds(m.records.Keys, c.edges);
    ChosenIds(present, Extracted(m).edges);
    forall k
      ensures k in again <==> k in choice && k !in before.edges && EdgeResolves(present, choice[k])
      ensures k in again ==> again[k] == choice[k]
    {
      if k in choice && k !in before.edges {
        assert m.edges[k] == choice[k] && m.edges[k] in Extracted(m).edges;
      }
    }
  }

  lemma SuppliesAgree(supply: map<string, Node>, before: map<string, Node>, now: map<string, Node>)
    ensures (supply - before.Keys) + now == supply + now <==>
            forall id :: id in supply && id in before ==> id in now
  {
    if (supply - before.Keys) + now == supply + now {
      forall id | id in supply && id in before
        ensures id in now
      {
        assert id in supply + now;
      }
    }
  }

  lemma SuppliedIds(records: seq<Node>, id: string)
    ensures id in Supplied(records) <==> exists n :: n in records && n.id == id
  {
    PutAbsentMeaning(map[], records);
  }

  lemma RecordsCarried(before: Body, now: Body, c: Contribution)
    requires ClosedBody(before) && Local(before) && Forge(c)
    ensures var x := Extracted(Merged(before, c.records, c.edges));
            Merged(now, x.records, x.edges).records == Merged(now, c.records, c.edges).records <==>
            RecordsSurvive(before, now, c)
  {
    var x := Extracted(Merged(before, c.records, c.edges));
    ExtractedSupply(before, c);
    MergedOverlay(now, x.records, x.edges);
    MergedOverlay(now, c.records, c.edges);
    SuppliesAgree(Supplied(c.records), before.records, now.records);
    forall id
      ensures id in Supplied(c.records) <==> exists n :: n in c.records && n.id == id
    {
      SuppliedIds(c.records, id);
    }
  }

  ghost predicate ChoiceCarried(before: Body, now: Body, earlier: map<string, Edge>, present: map<string, Edge>) {
    forall k :: k in present && k !in now.edges ==> k !in before.edges && k in earlier && earlier[k] == present[k]
  }

  lemma OverlaysAgree(
    before: Body, now: Body, earlier: map<string, Edge>, present: map<string, Edge>, again: map<string, Edge>,
    records: set<string>)
    requires forall k :: k in again <==> k in earlier && k !in before.edges && EdgeResolves(records, earlier[k])
    requires forall k :: k in again ==> again[k] == earlier[k]
    requires forall k :: k in present ==> EdgeResolves(records, present[k])
    requires forall k :: k in earlier && EdgeResolves(records, earlier[k]) ==> k in present
    ensures again + now.edges == present + now.edges <==> ChoiceCarried(before, now, earlier, present)
  {
    if again + now.edges == present + now.edges {
      forall k | k in present && k !in now.edges
        ensures k in again && again[k] == present[k]
      {
        assert k in present + now.edges && (present + now.edges)[k] == present[k];
        assert (again + now.edges)[k] == again[k];
      }
    }
    if ChoiceCarried(before, now, earlier, present) {
      forall k
        ensures k in again + now.edges <==> k in present + now.edges
        ensures k in again + now.edges ==> (again + now.edges)[k] == (present + now.edges)[k]
      {
      }
    }
  }

  lemma ChoicesCarried(before: Body, now: Body, c: Contribution)
    requires ClosedBody(before) && Local(before) && Forge(c) && RecordsSurvive(before, now, c)
    ensures var x := Extracted(Merged(before, c.records, c.edges));
            Merged(now, x.records, x.edges).edges == Merged(now, c.records, c.edges).edges <==>
            ChoiceCarried(
              before, now, Chosen(Merged(before, c.records, c.edges).records.Keys, c.edges),
              Chosen(Merged(now, c.records, c.edges).records.Keys, c.edges))
  {
    var m := Merged(before, c.records, c.edges);
    var x := Extracted(m);
    var records := Merged(now, c.records, c.edges).records.Keys;
    RecordsCarried(before, now, c);
    MergedOverlay(now, x.records, x.edges);
    MergedOverlay(now, c.records, c.edges);
    ExtractedChoice(before, c, records);
    ChosenIds(m.records.Keys, c.edges);
    ChosenIds(records, c.edges);
    OverlaysAgree(
      before, now, Chosen(m.records.Keys, c.edges), Chosen(records, c.edges), Chosen(records, x.edges), records);
  }

  ghost predicate IsChosen(choice: map<string, Edge>, e: Edge) {
    e.id in choice && choice[e.id] == e
  }

  lemma ChoiceByEdges(before: Body, now: Body, earlier: map<string, Edge>, present: map<string, Edge>)
    requires forall k :: k in present ==> present[k].id == k
    ensures ChoiceCarried(before, now, earlier, present) <==>
            forall e :: IsChosen(present, e) && e.id !in now.edges ==> e.id !in before.edges && IsChosen(earlier, e)
  {
    if forall e :: IsChosen(present, e) && e.id !in now.edges ==> e.id !in before.edges && IsChosen(earlier, e) {
      forall k | k in present && k !in now.edges
        ensures k !in before.edges && k in earlier && earlier[k] == present[k]
      {
        assert IsChosen(present, present[k]);
      }
    }
  }

  lemma ChoiceMeaning(before: Body, now: Body, earlier: set<string>, present: set<string>, edges: seq<Edge>)
    ensures ChoiceCarried(before, now, Chosen(earlier, edges), Chosen(present, edges)) <==>
            forall e :: FirstResolving(present, edges, e) && e.id !in now.edges ==>
              e.id !in before.edges && FirstResolving(earlier, edges, e)
  {
    ChosenIds(present, edges);
    ChoiceByEdges(before, now, Chosen(earlier, edges), Chosen(present, edges));
    forall e
      ensures FirstResolving(present, edges, e) <==> IsChosen(Chosen(present, edges), e)
      ensures FirstResolving(earlier, edges, e) <==> IsChosen(Chosen(earlier, edges), e)
    {
      ChosenMeaning(present, edges, e);
      ChosenMeaning(earlier, edges, e);
    }
  }

  lemma EdgesCarried(before: Body, now: Body, c: Contribution)
    requires ClosedBody(before) && Local(before) && Forge(c) && RecordsSurvive(before, now, c)
    ensures var x := Extracted(Merged(before, c.records, c.edges));
            Merged(now, x.records, x.edges).edges == Merged(now, c.records, c.edges).edges <==>
            EdgesSurvive(before, now, c)
  {
    ChoicesCarried(before, now, c);
    ChoiceMeaning(
      before, now, Merged(before, c.records, c.edges).records.Keys,
      Merged(now, c.records, c.edges).records.Keys, c.edges);
  }

  lemma SameBody(a: Body, b: Body)
    requires a.conflicts == b.conflicts
    ensures a == b <==> a.records == b.records && a.edges == b.edges
  {
  }

  lemma MergedConflicts(body: Body, records: seq<Node>, edges: seq<Edge>)
    ensures Merged(body, records, edges).conflicts == body.conflicts
  {
  }

  /** The forge rows of an earlier merge, merged into the local evidence of today, are what the
      contribution itself would give exactly when nothing it supplies was dropped then and would
      be taken now. */
  lemma CarriedExactly(before: Body, now: Body, c: Contribution)
    requires ClosedBody(before) && Local(before) && Forge(c)
    ensures var x := Extracted(Merged(before, c.records, c.edges));
            Merged(now, x.records, x.edges) == Merged(now, c.records, c.edges) <==>
            RecordsSurvive(before, now, c) && EdgesSurvive(before, now, c)
  {
    var x := Extracted(Merged(before, c.records, c.edges));
    MergedConflicts(now, x.records, x.edges);
    MergedConflicts(now, c.records, c.edges);
    SameBody(Merged(now, x.records, x.edges), Merged(now, c.records, c.edges));
    RecordsCarried(before, now, c);
    if RecordsSurvive(before, now, c) {
      EdgesCarried(before, now, c);
    }
  }

  // ----- what can be lost

  const SUPPLIED_WORK: Node :=
    Node("w", WorkItem, Current, None, None, Origin(GitHub, "forge", None, None))

  /** Leads to a local decision. */
  const SUPPLIED_EDGE: Edge := Edge("e", Documents, "w", "d", Current, Origin(GitHub, "forge", None, None))

  const LOCAL_DECISION: Node :=
    Node("d", Decision, Current, None, None, Origin(Document, "local", None, None))

  lemma LocalAndForge(now: Body)
    requires now == Body(map["d" := LOCAL_DECISION], map[], [])
    ensures ClosedBody(now) && Local(now) && ClosedBody(NOTHING_LOCAL) && Local(NOTHING_LOCAL)
    ensures Forge(Contribution([SUPPLIED_WORK], [SUPPLIED_EDGE]))
  {
  }

  const NOTHING_LOCAL := Body(map[], map[], [])

  /** A forge edge to a decision that did not exist locally is dropped. Written since, the
      decision makes the edge resolve; but carried over, as when the forge reports that nothing
      was modified, the contribution no longer has it. */
  lemma DroppedEdgeStaysLost(c: Contribution, now: Body)
    requires c == Contribution([SUPPLIED_WORK], [SUPPLIED_EDGE])
    requires now == Body(map["d" := LOCAL_DECISION], map[], [])
    ensures ClosedBody(now) && Local(now) && ClosedBody(NOTHING_LOCAL) && Local(NOTHING_LOCAL) && Forge(c)
    ensures var x := Extracted(Merged(NOTHING_LOCAL, c.records, c.edges));
            "e" in Merged(now, c.records, c.edges).edges && "e" !in Merged(now, x.records, x.edges).edges
    ensures RecordsSurvive(NOTHING_LOCAL, now, c) && !EdgesSurvive(NOTHING_LOCAL, now, c)
  {
    LocalAndForge(now);
    SuppliedAtOnce(NOTHING_LOCAL, c);
    SuppliedAtOnce(now, c);
    LostAgain(NOTHING_LOCAL, now, c, "e");
    CarriedExactly(NOTHING_LOCAL, now, c);
  }

  /** An edge the earlier merge did not take is not carried over. */
  lemma LostAgain(before: Body, now: Body, c: Contribution, k: string)
    requires ClosedBody(before) && Local(before) && Forge(c)
    requires k !in Merged(before, c.records, c.edges).edges && k !in now.edges
    ensures var x := Extracted(Merged(before, c.records, c.edges));
            k !in Merged(now, x.records, x.edges).edges
  {
    var x := Extracted(Merged(before, c.records, c.edges));
    ExtractedChoice(before, c, Merged(now, x.records, x.edges).records.Keys);
    MergedOverlay(before, c.records, c.edges);
    MergedOverlay(now, x.records, x.edges);
  }

  lemma SuppliedAtOnce(body: Body, c: Contribution)
    requires c == Contribution([SUPPLIED_WORK], [SUPPLIED_EDGE]) && body.edges == map[] && "w" !in body.records
    ensures var m := Merged(body, c.records, c.edges);
            && m.records.Keys == body.records.Keys + {"w"}
            && ("e" in m.edges <==> "d" in m.records)
            && m.edges == Chosen(m.records.Keys, c.edges)
  {
    MergedOverlay(body, c.records, c.edges);
    var m := Merged(body, c.records, c.edges);
    PutAbsentSnoc(map[], [], SUPPLIED_WORK);
    assert c.records == [] + [SUPPLIED_WORK];
    assert Supplied(c.records) == map["w" := SUPPLIED_WORK];
    ChosenIds(m.records.Keys, c.edges);
    if "d" in m.records {
      assert SUPPLIED_EDGE in c.edges && EdgeResolves(m.records.Keys, SUPPLIED_EDGE);
    }
  }
}
