/** Runs of synchronisations: what becomes of evidence that was published before. */
module Synchronisations {
  import opened Wrappers
  import opened Sequences
  import opened Model
  import opened Tables
  import opened Reachable
  import opened Runs
  import opened Engine
  import opened Publication
  import opened Offers

  ghost predicate CollisionFree(name: SnapshotMaterial -> string) {
    forall x, y :: name(x) == name(y) ==> x == y
  }

  /** Every synchronisation of the run, on what the one before it left: the first finds an empty
      store. */
  ghost predicate SyncRun(
    name: SnapshotMaterial -> string, dbs: seq<Database>, offers: seq<Offer>,
    results: seq<Result<Report, StoreError>>)
  {
    && |dbs| == |offers| + 1 && |results| == |offers|
    && dbs[0] == INITIAL.committed
    && forall i :: 0 <= i < |offers| ==> Synchronised(name, dbs[i], dbs[i + 1], offers[i], results[i])
  }

  ghost predicate Synchronised(
    name: SnapshotMaterial -> string, before: Database, after: Database, offer: Offer,
    r: Result<Report, StoreError>)
  {
    && ClosedBody(offer.body)
    && PublicationOutcome(
         before, after, offer.body, offer.sources, offer.diagnostics, name(Content(offer)), offer.now, r)
  }

  /** Synchronisation `j` published the content. */
  ghost predicate PublishedBy(
    offers: seq<Offer>, results: seq<Result<Report, StoreError>>, j: nat, content: SnapshotMaterial)
    requires j < |offers| == |results|
  {
    results[j] == Ok(Published) && Content(offers[j]) == content
  }

  /** One of the first `i` synchronisations published the content. */
  ghost predicate WasPublished(
    offers: seq<Offer>, results: seq<Result<Report, StoreError>>, i: nat, content: SnapshotMaterial)
    requires i <= |offers| == |results|
  {
    exists j :: 0 <= j < i && PublishedBy(offers, results, j, content)
  }

  /** And so did the last of them that published anything. */
  ghost predicate LastPublished(
    offers: seq<Offer>, results: seq<Result<Report, StoreError>>, i: nat, content: SnapshotMaterial)
    requires i <= |offers| == |results|
  {
    exists j :: 0 <= j < i && PublishedBy(offers, results, j, content) &&
      forall k :: j < k < i ==> results[k] != Ok(Published)
  }

  /** What the store holds after `i` synchronisations. */
  ghost predicate Holding(
    name: SnapshotMaterial -> string, db: Database, offers: seq<Offer>, results: seq<Result<Report, StoreError>>,
    i: nat)
    requires i <= |offers| == |results|
  {
    && CommittedValid(db)
    && (forall content :: name(content) in db.snapshots <==> WasPublished(offers, results, i, content))
    && (forall content :: db.current == Some(name(content)) <==> LastPublished(offers, results, i, content))
  }

  /** What a synchronisation does to the ids of snapshots and to the current one. */
  ghost predicate Effect(before: Database, after: Database, id: string, r: Result<Report, StoreError>) {
    if r == Ok(Published) then
      after.current == Some(id) && after.snapshots.Keys == before.snapshots.Keys + {id}
    else
      after.current == before.current && after.snapshots.Keys == before.snapshots.Keys
  }

  lemma SynchronisedEffect(
    name: SnapshotMaterial -> string, before: Database, after: Database, offer: Offer,
    r: Result<Report, StoreError>)
    requires CommittedValid(before) && Synchronised(name, before, after, offer, r)
    ensures CommittedValid(after) && Effect(before, after, name(Content(offer)), r)
  {
  }

  lemma HoldingStep(
    name: SnapshotMaterial -> string, before: Database, after: Database, offers: seq<Offer>,
    results: seq<Result<Report, StoreError>>, i: nat)
    requires CollisionFree(name) && i < |offers| == |results|
    requires Holding(name, before, offers, results, i)
    requires CommittedValid(after) && Effect(before, after, name(Content(offers[i])), results[i])
    ensures Holding(name, after, offers, results, i + 1)
  {
    forall content
      ensures name(content) in after.snapshots <==> WasPublished(offers, results, i + 1, content)
      ensures after.current == Some(name(content)) <==> LastPublished(offers, results, i + 1, content)
    {
      HeldAfter(name, before, after, offers, results, i, content);
    }
  }

  lemma HeldAfter(
    name: SnapshotMaterial -> string, before: Database, after: Database, offers: seq<Offer>,
    results: seq<Result<Report, StoreError>>, i: nat, content: SnapshotMaterial)
    requires CollisionFree(name) && i < |offers| == |results|
    requires name(content) in before.snapshots <==> WasPublished(offers, results, i, content)
    requires before.current == Some(name(content)) <==> LastPublished(offers, results, i, content)
    requires Effect(before, after, name(Content(offers[i])), results[i])
    ensures name(content) in after.snapshots <==> WasPublished(offers, results, i + 1, content)
    ensures after.current == Some(name(content)) <==> LastPublished(offers, results, i + 1, content)
  {
    WasPublishedSnoc(offers, results, i, content);
    LastPublishedSnoc(offers, results, i, content);
  }

  lemma WasPublishedSnoc(
    offers: seq<Offer>, results: seq<Result<Report, StoreError>>, i: nat, content: SnapshotMaterial)
    requires i < |offers| == |results|
    ensures WasPublished(offers, results, i + 1, content) <==>
            WasPublished(offers, results, i, content) || PublishedBy(offers, results, i, content)
  {
  }

  lemma LastPublishedSnoc(
    offers: seq<Offer>, results: seq<Result<Report, StoreError>>, i: nat, content: SnapshotMaterial)
    requires i < |offers| == |results|
    ensures LastPublished(offers, results, i + 1, content) <==>
            if results[i] == Ok(Published) then PublishedBy(offers, results, i, content)
            else LastPublished(offers, results, i, content)
  {
    if results[i] != Ok(Published) && LastPublished(offers, results, i, content) {
      var j :| 0 <= j < i && PublishedBy(offers, results, j, content) &&
        forall k :: j < k < i ==> results[k] != Ok(Published);
      assert forall k :: j < k < i + 1 ==> results[k] != Ok(Published);
    }
    if LastPublished(offers, results, i + 1, content) {
      var j :| 0 <= j < i + 1 && PublishedBy(offers, results, j, content) &&
        forall k :: j < k < i + 1 ==> results[k] != Ok(Published);
      assert j == i || (j < i && forall k :: j < k < i ==> results[k] != Ok(Published));
    }
  }

  lemma HoldingNothing(
    name: SnapshotMaterial -> string, offers: seq<Offer>, results: seq<Result<Report, StoreError>>)
    requires |offers| == |results|
    ensures Holding(name, INITIAL.committed, offers, results, 0)
  {
    InitialValid();
  }

  /** What every step of a run does to the ids of snapshots and to the current one. */
  ghost predicate Effects(
    name: SnapshotMaterial -> string, dbs: seq<Database>, offers: seq<Offer>,
    results: seq<Result<Report, StoreError>>)
  {
    && |dbs| == |offers| + 1 && |results| == |offers| && dbs[0] == INITIAL.committed
    && forall i :: 0 <= i < |offers| && CommittedValid(dbs[i]) ==>
         CommittedValid(dbs[i + 1]) && Effect(dbs[i], dbs[i + 1], name(Content(offers[i])), results[i])
  }

  lemma RunEffects(
    name: SnapshotMaterial -> string, dbs: seq<Database>, offers: seq<Offer>,
    results: seq<Result<Report, StoreError>>)
    requires SyncRun(name, dbs, offers, results)
    ensures Effects(name, dbs, offers, results)
  {
    forall i | 0 <= i < |offers| && CommittedValid(dbs[i])
      ensures CommittedValid(dbs[i + 1]) && Effect(dbs[i], dbs[i + 1], name(Content(offers[i])), results[i])
    {
      SynchronisedEffect(name, dbs[i], dbs[i + 1], offers[i], results[i]);
    }
  }

  lemma {:induction false} RunHolding(
    name: SnapshotMaterial -> string, dbs: seq<Database>, offers: seq<Offer>,
    results: seq<Result<Report, StoreError>>, i: nat)
    requires CollisionFree(name) && Effects(name, dbs, offers, results) && i <= |offers|
    ensures Holding(name, dbs[i], offers, results, i)
  {
    if i == 0 {
      HoldingNothing(name, offers, results);
    } else {
      RunHolding(name, dbs, offers, results, i - 1);
      HoldingStep(name, dbs[i - 1], dbs[i - 1 + 1], offers, results, i - 1);
    }
  }

  lemma OutcomesByName(
    name: SnapshotMaterial -> string, dbs: seq<Database>, offers: seq<Offer>,
    results: seq<Result<Report, StoreError>>, i: nat)
    requires CollisionFree(name) && SyncRun(name, dbs, offers, results) && i < |offers|
    ensures results[i] == Ok(Unchanged) <==> LastPublished(offers, results, i, Content(offers[i]))
    ensures results[i] == Err(Constraint) <==>
            && WasPublished(offers, results, i, Content(offers[i]))
            && !LastPublished(offers, results, i, Content(offers[i]))
    ensures results[i] == Ok(Published) <==>
            !WasPublished(offers, results, i, Content(offers[i])) && ContentAgrees(dbs[i], offers[i].body)
  {
    RunEffects(name, dbs, offers, results);
    RunHolding(name, dbs, offers, results, i);
    assert Synchronised(name, dbs[i], dbs[i + 1], offers[i], results[i]);
    var content := Content(offers[i]);
    assert name(content) in dbs[i].snapshots <==> WasPublished(offers, results, i, content);
    assert dbs[i].current == Some(name(content)) <==> LastPublished(offers, results, i, content);
  }

  // ----- in terms of what was offered

  /** One of the synchronisations before `i` published what `i` offers. */
  ghost predicate Earlier(offers: seq<Offer>, results: seq<Result<Report, StoreError>>, i: nat)
    requires i < |offers| == |results|
  {
    exists j :: 0 <= j < i && results[j] == Ok(Published) && SameOffer(offers[j], offers[i])
  }

  /** And so did the last of them that published anything. */
  ghost predicate Latest(offers: seq<Offer>, results: seq<Result<Report, StoreError>>, i: nat)
    requires i < |offers| == |results|
  {
    exists j :: 0 <= j < i && results[j] == Ok(Published) && SameOffer(offers[j], offers[i]) &&
      forall k :: j < k < i ==> results[k] != Ok(Published)
  }

  lemma PublishedLike(offers: seq<Offer>, results: seq<Result<Report, StoreError>>, i: nat)
    requires i < |offers| == |results|
    ensures WasPublished(offers, results, i, Content(offers[i])) <==> Earlier(offers, results, i)
    ensures LastPublished(offers, results, i, Content(offers[i])) <==> Latest(offers, results, i)
  {
    forall j | 0 <= j < i
      ensures PublishedBy(offers, results, j, Content(offers[i])) <==>
              results[j] == Ok(Published) && SameOffer(offers[j], offers[i])
    {
      SameContent(offers[j], offers[i]);
    }
  }

  /** In every run, what a synchronisation does is decided by what was published before it:
      nothing, if the same was published last; a refusal, if it was published earlier but is not
      current; and a publication exactly if it is new and no immutable id would change. */
  lemma SyncOutcomes(
    name: SnapshotMaterial -> string, dbs: seq<Database>, offers: seq<Offer>,
    results: seq<Result<Report, StoreError>>, i: nat)
    requires CollisionFree(name) && SyncRun(name, dbs, offers, results) && i < |offers|
    ensures results[i] == Ok(Unchanged) <==> Latest(offers, results, i)
    ensures results[i] == Err(Constraint) <==> Earlier(offers, results, i) && !Latest(offers, results, i)
    ensures results[i] == Ok(Published) <==>
            !Earlier(offers, results, i) && ContentAgrees(dbs[i], offers[i].body)
  {
    OutcomesByName(name, dbs, offers, results, i);
    PublishedLike(offers, results, i);
  }

  // ----- in terms of what is stored

  /** The current snapshot holds exactly what is offered: records, edges, conflicts, diagnostics,
      and the state of every source but for when it was observed. */
  ghost predicate Shows(db: Database, offer: Offer) {
    && db.current.Some? && db.current.value in db.snapshots
    && var s := db.snapshots[db.current.value];
       && EvidenceOf(db, db.current.value)
          == Evidence(offer.body.records, offer.body.edges, Elements(offer.body.conflicts))
       && multiset(s.quarantined) == multiset(offer.diagnostics)
       && StoredAs(s.sources, offer.sources)
  }

  /** No conflict is offered twice and no source has two states. */
  ghost predicate Unrepeated(offer: Offer) {
    Distinct(offer.body.conflicts) && OneEach(offer.sources)
  }

  lemma CurrentShows(db: Database, sid: string, offer: Offer)
    requires CurrentIs(db, sid, offer.body, offer.sources, offer.diagnostics) && Unrepeated(offer)
    ensures Shows(db, offer)
  {
    forall x | x in offer.sources
      ensures SameState(db.snapshots[sid].sources[x.sourceId], x)
    {
      var y := db.snapshots[sid].sources[x.sourceId];
      UnderOne(offer.sources, x);
      UnderOne(offer.sources, y);
    }
  }

  lemma StepShows(
    name: SnapshotMaterial -> string, before: Database, after: Database, offer: Offer,
    r: Result<Report, StoreError>)
    requires Synchronised(name, before, after, offer, r)
    ensures r == Ok(Published) && Unrepeated(offer) ==> Shows(after, offer)
    ensures r != Ok(Published) ==> after == before
  {
    if r == Ok(Published) && Unrepeated(offer) {
      CurrentShows(after, name(Content(offer)), offer);
    }
  }

  lemma RunShows(
    name: SnapshotMaterial -> string, dbs: seq<Database>, offers: seq<Offer>,
    results: seq<Result<Report, StoreError>>, i: nat)
    requires SyncRun(name, dbs, offers, results) && i < |offers|
    ensures results[i] == Ok(Published) && Unrepeated(offers[i]) ==> Shows(dbs[i + 1], offers[i])
    ensures results[i] != Ok(Published) ==> dbs[i + 1] == dbs[i]
  {
    StepShows(name, dbs[i], dbs[i + 1], offers[i], results[i]);
  }

  /** What a run does to what is stored. */
  ghost predicate Followed(dbs: seq<Database>, offers: seq<Offer>, results: seq<Result<Report, StoreError>>) {
    && |dbs| == |offers| + 1 && |results| == |offers| && dbs[0].current.None?
    && forall i :: 0 <= i < |offers| ==>
         if results[i] == Ok(Published) then Unrepeated(offers[i]) ==> Shows(dbs[i + 1], offers[i])
         else dbs[i + 1] == dbs[i]
  }

  lemma RunFollowed(
    name: SnapshotMaterial -> string, dbs: seq<Database>, offers: seq<Offer>,
    results: seq<Result<Report, StoreError>>)
    requires SyncRun(name, dbs, offers, results)
    ensures Followed(dbs, offers, results)
  {
    forall i | 0 <= i < |offers|
      ensures results[i] == Ok(Published) && Unrepeated(offers[i]) ==> Shows(dbs[i + 1], offers[i])
      ensures results[i] != Ok(Published) ==> dbs[i + 1] == dbs[i]
    {
      RunShows(name, dbs, offers, results, i);
    }
  }

  /** Until something else is published the store stays as it is. */
  lemma {:induction false} StaysStored(
    dbs: seq<Database>, offers: seq<Offer>, results: seq<Result<Report, StoreError>>, i: nat, j: nat)
    requires Followed(dbs, offers, results) && j <= i <= |offers|
    requires forall k :: j <= k < i ==> results[k] != Ok(Published)
    ensures dbs[i] == dbs[j]
  {
    if j < i {
      StaysStored(dbs, offers, results, i - 1, j);
      assert dbs[i - 1 + 1] == dbs[i - 1];
    }
  }

  /** Whatever was published last is what the store shows. */
  lemma LastIsShown(
    dbs: seq<Database>, offers: seq<Offer>, results: seq<Result<Report, StoreError>>, i: nat, j: nat)
    requires Followed(dbs, offers, results) && j < i <= |offers|
    requires results[j] == Ok(Published) && forall k :: j < k < i ==> results[k] != Ok(Published)
    requires Unrepeated(offers[j])
    ensures Shows(dbs[i], offers[j])
  {
    StaysStored(dbs, offers, results, i, j + 1);
  }

  /** The last publication among the first `i`, if there is one. */
  lemma {:induction false} LastOf(results: seq<Result<Report, StoreError>>, i: nat) returns (j: int)
    requires i <= |results|
    ensures -1 <= j < i && forall k :: j < k < i ==> results[k] != Ok(Published)
    ensures j >= 0 ==> results[j] == Ok(Published)
  {
    if i == 0 {
      j := -1;
    } else if results[i - 1] == Ok(Published) {
      j := i - 1;
    } else {
      j := LastOf(results, i - 1);
    }
  }

  lemma SameConflicts(a: seq<Conflict>, b: seq<Conflict>)
    requires Distinct(a) && Distinct(b)
    ensures multiset(a) == multiset(b) <==> Elements(a) == Elements(b)
  {
    if Elements(a) == Elements(b) {
      forall c: Conflict
        ensures multiset(a)[c] == multiset(b)[c]
      {
        assert c in a <==> c in Elements(a);
        assert c in b <==> c in Elements(b);
        DistinctMultiset(a, c);
        DistinctMultiset(b, c);
      }
    }
    if multiset(a) == multiset(b) {
      PermutationMembers(a, b);
    }
  }

  ghost predicate OneEach(sources: seq<SourceState>) {
    forall i, j :: 0 <= i < j < |sources| ==> sources[i].sourceId != sources[j].sourceId
  }

  lemma {:induction false} UnderOne(sources: seq<SourceState>, x: SourceState)
    requires OneEach(sources) && x in sources
    ensures Under(sources, x.sourceId) == [x]
  {
    if sources[0] == x {
      forall y | y in sources[1..]
        ensures y.sourceId != x.sourceId
      {
        var k :| 0 <= k < |sources[1..]| && sources[1..][k] == y;
        assert sources[k + 1] == y;
      }
      UnderMember(sources[1..], x.sourceId);
    } else {
      assert sources == [sources[0]] + sources[1..];
      var k :| 0 <= k < |sources| && sources[k] == x;
      UnderOne(sources[1..], x);
    }
  }

  lemma {:induction false} UnderAtMostOne(sources: seq<SourceState>, id: string)
    requires OneEach(sources)
    ensures |Under(sources, id)| <= 1
  {
    UnderMember(sources, id);
    if Under(sources, id) != [] {
      var x :| x in sources && x.sourceId == id;
      UnderOne(sources, x);
    }
  }

  /** The state reported for a source, if there is one. */
  function StateOf(sources: seq<SourceState>, id: string): Option<SourceState> {
    if Under(sources, id) == [] then None else Some(Under(sources, id)[0])
  }

  function StoredState(stored: map<string, SourceState>, id: string): Option<SourceState> {
    if id in stored then Some(stored[id]) else None
  }

  ghost predicate SameReported(x: Option<SourceState>, y: Option<SourceState>) {
    if x.None? then y.None? else y.Some? && SameState(x.value, y.value)
  }

  lemma SourceByState(a: seq<SourceState>, b: seq<SourceState>, id: string)
    requires OneEach(a) && OneEach(b)
    ensures SameStates(Under(a, id), Under(b, id)) <==> SameReported(StateOf(a, id), StateOf(b, id))
  {
    UnderAtMostOne(a, id);
    UnderAtMostOne(b, id);
  }

  ghost predicate StoredAs(stored: map<string, SourceState>, sources: seq<SourceState>) {
    && stored.Keys == (set x | x in sources :: x.sourceId)
    && forall x :: x in sources ==> SameState(stored[x.sourceId], x)
  }

  lemma StateOfMember(sources: seq<SourceState>, x: SourceState)
    requires OneEach(sources) && x in sources
    ensures StateOf(sources, x.sourceId) == Some(x)
  {
    UnderOne(sources, x);
  }

  lemma StoredByState(stored: map<string, SourceState>, sources: seq<SourceState>)
    requires OneEach(sources)
    ensures StoredAs(stored, sources) <==> forall id :: SameReported(StoredState(stored, id), StateOf(sources, id))
  {
    if StoredAs(stored, sources) {
      forall id
        ensures SameReported(StoredState(stored, id), StateOf(sources, id))
      {
        UnderMember(sources, id);
        if x :| x in sources && x.sourceId == id {
          StateOfMember(sources, x);
        }
      }
    }
    if forall id :: SameReported(StoredState(stored, id), StateOf(sources, id)) {
      forall x | x in sources
        ensures x.sourceId in stored && SameState(stored[x.sourceId], x)
      {
        StateOfMember(sources, x);
        assert SameReported(StoredState(stored, x.sourceId), StateOf(sources, x.sourceId));
      }
      forall id | id in stored
        ensures exists x :: x in sources && x.sourceId == id
      {
        assert SameReported(StoredState(stored, id), StateOf(sources, id));
        UnderMember(sources, id);
      }
    }
  }

  lemma ReportedAlike(x: Option<SourceState>, y: Option<SourceState>, z: Option<SourceState>)
    requires SameReported(x, y)
    ensures SameReported(x, z) <==> SameReported(y, z)
  {
  }

  lemma ShownSources(stored: map<string, SourceState>, a: seq<SourceState>, b: seq<SourceState>)
    requires OneEach(a) && OneEach(b) && StoredAs(stored, a)
    ensures SameSources(a, b) <==> StoredAs(stored, b)
  {
    StoredByState(stored, a);
    StoredByState(stored, b);
    forall id
      ensures SameStates(Under(a, id), Under(b, id)) <==> SameReported(StoredState(stored, id), StateOf(b, id))
    {
      SourceByState(a, b, id);
      ReportedAlike(StoredState(stored, id), StateOf(a, id), StateOf(b, id));
    }
  }

  /** What shows one offer shows another exactly when the two offer the same. */
  lemma ShownAlike(db: Database, x: Offer, y: Offer)
    requires Shows(db, x) && Unrepeated(x) && Unrepeated(y)
    ensures Shows(db, y) <==> SameOffer(x, y)
  {
    var s := db.snapshots[db.current.value];
    SameConflicts(x.body.conflicts, y.body.conflicts);
    ShownSources(s.sources, x.sources, y.sources);
  }

  /** In every run of offers that repeat nothing, a synchronisation changes nothing exactly when
      the current snapshot already holds what it offers. */
  lemma UnchangedExactly(
    name: SnapshotMaterial -> string, dbs: seq<Database>, offers: seq<Offer>,
    results: seq<Result<Report, StoreError>>, i: nat)
    requires CollisionFree(name) && SyncRun(name, dbs, offers, results) && i < |offers|
    requires forall k :: 0 <= k <= i ==> Unrepeated(offers[k])
    ensures results[i] == Ok(Unchanged) <==> Shows(dbs[i], offers[i])
  {
    SyncOutcomes(name, dbs, offers, results, i);
    RunFollowed(name, dbs, offers, results);
    var j := LastOf(results, i);
    if j < 0 {
      StaysStored(dbs, offers, results, i, 0);
    } else {
      LastIsShown(dbs, offers, results, i, j);
      ShownAlike(dbs[i], offers[j], offers[i]);
      LatestIsLast(offers, results, i, j);
    }
  }

  lemma LatestIsLast(offers: seq<Offer>, results: seq<Result<Report, StoreError>>, i: nat, j: nat)
    requires j < i < |offers| == |results|
    requires results[j] == Ok(Published) && forall k :: j < k < i ==> results[k] != Ok(Published)
    ensures Latest(offers, results, i) <==> SameOffer(offers[j], offers[i])
  {
    if Latest(offers, results, i) {
      var l :| 0 <= l < i && results[l] == Ok(Published) && SameOffer(offers[l], offers[i]) &&
        forall k :: l < k < i ==> results[k] != Ok(Published);
      assert l == j;
    }
  }

  // ----- going back

  /** Nothing is stored before the first synchronisation. */
  lemma FirstIsPublished(
    name: SnapshotMaterial -> string, dbs: seq<Database>, offers: seq<Offer>,
    results: seq<Result<Report, StoreError>>)
    requires CollisionFree(name) && SyncRun(name, dbs, offers, results) && |offers| > 0
    ensures results[0] == Ok(Published)
  {
    SyncOutcomes(name, dbs, offers, results, 0);
    assert ContentAgrees(dbs[0], offers[0].body);
  }

  /** The same evidence with other reports or source states is published. */
  lemma SameEvidenceIsPublished(
    name: SnapshotMaterial -> string, dbs: seq<Database>, offers: seq<Offer>,
    results: seq<Result<Report, StoreError>>)
    requires CollisionFree(name) && SyncRun(name, dbs, offers, results) && |offers| > 1
    requires results[0] == Ok(Published)
    requires offers[0].body == offers[1].body && !SameOffer(offers[0], offers[1])
    ensures results[1] == Ok(Published)
  {
    SyncOutcomes(name, dbs, offers, results, 1);
    assert Synchronised(name, dbs[0], dbs[0 + 1], offers[0], results[0]);
    CurrentAgrees(dbs[1], name(Content(offers[0])), offers[0]);
  }

  lemma OldContentIsRefused(
    name: SnapshotMaterial -> string, dbs: seq<Database>, offers: seq<Offer>,
    results: seq<Result<Report, StoreError>>)
    requires CollisionFree(name) && SyncRun(name, dbs, offers, results) && |offers| > 2
    requires results[0] == results[1] == Ok(Published)
    requires SameOffer(offers[0], offers[2]) && !SameOffer(offers[1], offers[2])
    ensures results[2] == Err(Constraint)
  {
    SyncOutcomes(name, dbs, offers, results, 2);
    assert Earlier(offers, results, 2);
  }

  /** The same evidence synchronised, then with other reports or source states, then as at first:
      whatever the evidence, the third synchronisation is refused. */
  lemma GoingBackIsRefused(
    name: SnapshotMaterial -> string, dbs: seq<Database>, offers: seq<Offer>,
    results: seq<Result<Report, StoreError>>)
    requires CollisionFree(name) && SyncRun(name, dbs, offers, results) && |offers| == 3
    requires offers[0].body == offers[1].body
    requires SameOffer(offers[0], offers[2]) && !SameOffer(offers[1], offers[2])
    ensures results[0] == results[1] == Ok(Published) && results[2] == Err(Constraint)
  {
    FirstIsPublished(name, dbs, offers, results);
    SameEvidenceIsPublished(name, dbs, offers, results);
    OldContentIsRefused(name, dbs, offers, results);
  }

  /** Evidence that is stored agrees with what is stored. */
  lemma CurrentAgrees(db: Database, sid: string, offer: Offer)
    requires CurrentIs(db, sid, offer.body, offer.sources, offer.diagnostics)
    ensures ContentAgrees(db, offer.body)
  {
    var ev := EvidenceOf(db, sid);
    assert ev.nodes == offer.body.records && ev.edges == offer.body.edges;
  }
}
