/** What one synchronisation offers, and when two of them offer the same: the name of a snapshot
    forgets the order of rows and when a source was observed, and nothing else. */
module Offers {
  import opened Wrappers
  import opened Sequences
  import opened Ordering
  import opened Proof
  import opened Tables
  import opened Engine
  import opened Publication

  datatype Offer = Offer(body: Body, sources: seq<SourceState>, diagnostics: seq<Diagnostic>, now: string)

  function Content(offer: Offer): SnapshotMaterial {
    MaterialOf(offer.body, offer.sources, offer.diagnostics)
  }

  /** The same state of a source, whenever it was observed; an empty cursor is none. */
  ghost predicate SameState(x: SourceState, y: SourceState) {
    && x.sourceId == y.sourceId && x.sourceKind == y.sourceKind && x.freshness == y.freshness
    && (x.cursor == y.cursor || (x.cursor in {None, Some("")} && y.cursor in {None, Some("")}))
  }

  ghost predicate SameStates(a: seq<SourceState>, b: seq<SourceState>) {
    |a| == |b| && forall i :: 0 <= i < |a| ==> SameState(a[i], b[i])
  }

  /** The states reported for one source, in order. */
  function Under(sources: seq<SourceState>, id: string): seq<SourceState> {
    if sources == [] then []
    else (if sources[0].sourceId == id then [sources[0]] else []) + Under(sources[1..], id)
  }

  ghost predicate SameSources(a: seq<SourceState>, b: seq<SourceState>) {
    forall id :: SameStates(Under(a, id), Under(b, id))
  }

  /** The same records and edges, the same conflicts and diagnostics each as often, and the same
      states of every source. */
  ghost predicate SameOffer(x: Offer, y: Offer) {
    && x.body.records == y.body.records && x.body.edges == y.body.edges
    && multiset(x.body.conflicts) == multiset(y.body.conflicts)
    && multiset(x.diagnostics) == multiset(y.diagnostics)
    && SameSources(x.sources, y.sources)
  }

  // ----- rows compared whole

  lemma DiagnosticOrder()
    ensures StrictTotalOrder(DiagnosticLess)
  {
    StringsOrder();
    forall a: Diagnostic, b: Diagnostic | a != b
      ensures DiagnosticLess(a, b) || DiagnosticLess(b, a)
    {
      var x, y := [a.sourceLocator, a.code, a.message], [b.sourceLocator, b.code, b.message];
      assert x[0] == y[0] && x[1] == y[1] && x[2] == y[2] ==> a == b;
    }
  }

  lemma SortedSame<T(!new)>(lt: (T, T) -> bool, a: seq<T>, b: seq<T>)
    requires StrictTotalOrder(lt)
    ensures Sort(lt, a) == Sort(lt, b) <==> multiset(a) == multiset(b)
  {
    if multiset(a) == multiset(b) {
      SortPermutation(lt, a, b);
    }
    assert multiset(Sort(lt, a)) == multiset(a) && multiset(Sort(lt, b)) == multiset(b);
  }

  // ----- states of sources

  lemma MarksSame(x: SourceState, y: SourceState)
    ensures MarkOf(x) == MarkOf(y) <==> SameState(x, y)
  {
  }

  lemma MarkedSame(a: seq<SourceState>, b: seq<SourceState>)
    ensures Map(MarkOf, a) == Map(MarkOf, b) <==> SameStates(a, b)
  {
    forall x, y
      ensures MarkOf(x) == MarkOf(y) <==> SameState(x, y)
    {
      MarksSame(x, y);
    }
    if Map(MarkOf, a) == Map(MarkOf, b) {
      assert |a| == |Map(MarkOf, a)| == |b|;
      forall i | 0 <= i < |a|
        ensures SameState(a[i], b[i])
      {
        assert Map(MarkOf, a)[i] == MarkOf(a[i]) && Map(MarkOf, b)[i] == MarkOf(b[i]);
      }
    }
  }

  /** What one state contributes to those of a source. */
  function Own(x: SourceState, id: string): seq<SourceState> {
    if x.sourceId == id then [x] else []
  }

  lemma UnderCons(x: SourceState, s: seq<SourceState>, id: string)
    ensures Under([x] + s, id) == Own(x, id) + Under(s, id)
  {
    assert ([x] + s)[1..] == s;
  }

  lemma {:induction false} UnderInsert(x: SourceState, s: seq<SourceState>, id: string)
    ensures Under(Insert(SourceLess, x, s), id) == Own(x, id) + Under(s, id)
  {
    if s == [] || !SourceLess(s[0], x) {
      UnderCons(x, s, id);
    } else {
      var rest := Insert(SourceLess, x, s[1..]);
      UnderInsert(x, s[1..], id);
      UnderCons(s[0], rest, id);
      UnderCons(s[0], s[1..], id);
      assert s == [s[0]] + s[1..];
      PassedOver(x, s[0], Under(s[1..], id), id);
    }
  }

  lemma PassedOver(x: SourceState, y: SourceState, rest: seq<SourceState>, id: string)
    requires SourceLess(y, x)
    ensures Own(y, id) + (Own(x, id) + rest) == Own(x, id) + (Own(y, id) + rest)
  {
    StringOrder();
    assert y.sourceId != x.sourceId;
  }

  /** Sorting keeps the order of the states of one source. */
  lemma {:induction false} UnderSort(s: seq<SourceState>, id: string)
    ensures Under(Sort(SourceLess, s), id) == Under(s, id)
  {
    if s != [] {
      UnderSort(s[1..], id);
      UnderInsert(s[0], Sort(SourceLess, s[1..]), id);
    }
  }

  /** The ids never decrease. */
  ghost predicate ById(s: seq<SourceState>) {
    forall i, j :: 0 <= i < j < |s| ==> !StringLess(s[j].sourceId, s[i].sourceId)
  }

  lemma {:induction false} InsertById(x: SourceState, s: seq<SourceState>)
    requires ById(s)
    ensures ById(Insert(SourceLess, x, s))
  {
    StringOrder();
    if s != [] && SourceLess(s[0], x) {
      InsertById(x, s[1..]);
      var r := Insert(SourceLess, x, s[1..]);
      forall j | 0 <= j < |r|
        ensures !StringLess(r[j].sourceId, s[0].sourceId)
      {
        assert r[j] in r;
        if r[j] != x {
          var k :| 0 <= k < |s[1..]| && s[1..][k] == r[j];
          assert s[k + 1] == r[j];
        }
      }
    }
  }

  lemma {:induction false} SortById(s: seq<SourceState>)
    ensures ById(Sort(SourceLess, s))
  {
    if s != [] {
      SortById(s[1..]);
      InsertById(s[0], Sort(SourceLess, s[1..]));
    }
  }

  lemma {:induction false} UnderMember(s: seq<SourceState>, id: string)
    ensures Under(s, id) != [] <==> exists x :: x in s && x.sourceId == id
    ensures forall x :: x in Under(s, id) ==> x in s && x.sourceId == id
  {
    if s != [] {
      UnderMember(s[1..], id);
      assert s == [s[0]] + s[1..];
    }
  }

  lemma {:induction false} PairwiseUnder(a: seq<SourceState>, b: seq<SourceState>, id: string)
    requires SameStates(a, b)
    ensures SameStates(Under(a, id), Under(b, id))
  {
    if a != [] {
      assert SameState(a[0], b[0]);
      PairwiseUnder(a[1..], b[1..], id);
    }
  }

  lemma SameFirstId(a: seq<SourceState>, b: seq<SourceState>)
    requires ById(a) && ById(b) && a != [] && SameSources(a, b)
    ensures b != [] && !StringLess(a[0].sourceId, b[0].sourceId)
  {
    var id := a[0].sourceId;
    UnderMember(a, id);
    UnderMember(b, id);
    assert a[0] in a && SameStates(Under(a, id), Under(b, id));
    var x :| x in b && x.sourceId == id;
    var k :| 0 <= k < |b| && b[k] == x;
    StringOrder();
  }

  lemma UnderTail(a: seq<SourceState>, b: seq<SourceState>, id: string)
    requires a != [] && b != [] && a[0].sourceId == b[0].sourceId && SameStates(Under(a, id), Under(b, id))
    ensures SameStates(Under(a[1..], id), Under(b[1..], id))
    ensures a[0].sourceId == id ==> SameState(a[0], b[0])
  {
    if a[0].sourceId == id {
      var x, y := Under(a, id), Under(b, id);
      assert SameState(x[0], y[0]);
      assert x[1..] == Under(a[1..], id) && y[1..] == Under(b[1..], id);
    } else {
      assert Under(a, id) == Under(a[1..], id) && Under(b, id) == Under(b[1..], id);
    }
  }

  lemma {:induction false} SortedSources(a: seq<SourceState>, b: seq<SourceState>)
    requires ById(a) && ById(b) && SameSources(a, b)
    ensures SameStates(a, b)
  {
    if a == [] {
      if b != [] {
        SameFirstIdOther(a, b);
      }
    } else {
      SameFirstId(a, b);
      SwapSources(a, b);
      SameFirstId(b, a);
      StringOrder();
      assert a[0].sourceId == b[0].sourceId;
      forall id
        ensures SameStates(Under(a[1..], id), Under(b[1..], id))
        ensures a[0].sourceId == id ==> SameState(a[0], b[0])
      {
        UnderTail(a, b, id);
      }
      UnderTail(a, b, a[0].sourceId);
      SortedSources(a[1..], b[1..]);
    }
  }

  lemma SwapSources(a: seq<SourceState>, b: seq<SourceState>)
    requires SameSources(a, b)
    ensures SameSources(b, a)
  {
  }

  lemma SameFirstIdOther(a: seq<SourceState>, b: seq<SourceState>)
    requires a == [] && b != []
    ensures !SameSources(a, b)
  {
    UnderMember(b, b[0].sourceId);
    assert b[0] in b;
    assert !SameStates(Under(a, b[0].sourceId), Under(b, b[0].sourceId));
  }

  lemma SourcesSame(a: seq<SourceState>, b: seq<SourceState>)
    ensures Map(MarkOf, Sort(SourceLess, a)) == Map(MarkOf, Sort(SourceLess, b)) <==> SameSources(a, b)
  {
    var x, y := Sort(SourceLess, a), Sort(SourceLess, b);
    MarkedSame(x, y);
    forall id
      ensures Under(x, id) == Under(a, id) && Under(y, id) == Under(b, id)
      ensures SameStates(x, y) ==> SameStates(Under(x, id), Under(y, id))
    {
      UnderSort(a, id);
      UnderSort(b, id);
      if SameStates(x, y) {
        PairwiseUnder(x, y, id);
      }
    }
    if SameSources(a, b) {
      SortById(a);
      SortById(b);
      assert SameSources(x, y);
      SortedSources(x, y);
    }
  }

  /** Two offers have one name, and one content, exactly when they offer the same. */
  lemma SameContent(x: Offer, y: Offer)
    ensures Content(x) == Content(y) <==> SameOffer(x, y)
  {
    ConflictOrder();
    DiagnosticOrder();
    SortedSame(ConflictLess, x.body.conflicts, y.body.conflicts);
    SortedSame(DiagnosticLess, x.diagnostics, y.diagnostics);
    SourcesSame(x.sources, y.sources);
  }
}
