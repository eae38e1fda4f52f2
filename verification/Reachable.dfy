/** The evidence of one snapshot, and the slice reachable from seed records: the recursive
    query of the store as a worklist. */
module Reachable {
  import opened Wrappers
  import opened Sequences
  import opened Ordering
  import opened Model
  import opened Proof
  import opened Tables

  /** The records, edges and conflicts of one snapshot, by key. */
  datatype Evidence = Evidence(
    nodes: map<string, Node>,
    edges: map<string, Edge>,
    conflicts: set<Conflict>)

  const NOTHING := Evidence(map[], map[], {})

  function EvidenceOf(db: Database, sid: string): Evidence {
    if sid !in db.snapshots then NOTHING
    else
      var s := db.snapshots[sid];
      Evidence(
        map id | id in s.records && id in db.records :: db.records[id].content,
        map id | id in s.edges && id in db.edges :: db.edges[id].content,
        set c | c in s.conflicts && c in db.conflicts)
  }

  /** Keys are the ids of their values and every endpoint is a member. */
  ghost predicate ClosedEvidence(ev: Evidence) {
    && (forall id :: id in ev.nodes ==> ev.nodes[id].id == id)
    && (forall id :: id in ev.edges ==>
          && ev.edges[id].id == id
          && ev.edges[id].sourceId in ev.nodes
          && ev.edges[id].targetId in ev.nodes)
    && (forall c :: c in ev.conflicts ==> c.leftNodeId in ev.nodes && c.rightNodeId in ev.nodes)
  }

  // ----- reachability

  /** One step of the recursive query: edges forward, conflicts both ways. */
  function Neighbours(ev: Evidence, id: string): (r: set<string>) {
    (set e | e in ev.edges && ev.edges[e].sourceId == id :: ev.edges[e].targetId)
    + (set c | c in ev.conflicts && c.leftNodeId == id :: c.rightNodeId)
    + (set c | c in ev.conflicts && c.rightNodeId == id :: c.leftNodeId)
  }

  ghost predicate Invariant(ev: Evidence, s: set<string>) {
    forall id :: id in s ==> Neighbours(ev, id) <= s
  }

  ghost predicate Chain(ev: Evidence, seeds: set<string>, c: seq<string>) {
    && c != []
    && c[0] in seeds
    && forall i :: 0 <= i < |c| - 1 ==> c[i + 1] in Neighbours(ev, c[i])
  }

  ghost predicate Linked(ev: Evidence, seeds: set<string>, id: string) {
    exists c :: Chain(ev, seeds, c) && c[|c| - 1] == id
  }

  ghost function Mentioned(ev: Evidence): set<string> {
    (set e | e in ev.edges :: ev.edges[e].targetId)
    + (set c | c in ev.conflicts :: c.rightNodeId)
    + (set c | c in ev.conflicts :: c.leftNodeId)
  }

  /** Everything a chain of steps reaches from the seeds. */
  ghost function Closure(ev: Evidence, seeds: set<string>): set<string> {
    set id | id in seeds + Mentioned(ev) && Linked(ev, seeds, id)
  }

  lemma LinkedIsMentioned(ev: Evidence, seeds: set<string>, id: string)
    requires Linked(ev, seeds, id)
    ensures id in seeds + Mentioned(ev)
  {
    var c :| Chain(ev, seeds, c) && c[|c| - 1] == id;
    if |c| > 1 {
      assert c[|c| - 2 + 1] in Neighbours(ev, c[|c| - 2]);
    }
  }

  lemma LinkedStep(ev: Evidence, seeds: set<string>, id: string, next: string)
    requires Linked(ev, seeds, id) && next in Neighbours(ev, id)
    ensures Linked(ev, seeds, next)
  {
    var c :| Chain(ev, seeds, c) && c[|c| - 1] == id;
    var d := c + [next];
    assert Chain(ev, seeds, d);
    assert d[|d| - 1] == next;
  }

  lemma {:induction false} ChainStays(ev: Evidence, seeds: set<string>, s: set<string>, c: seq<string>, k: nat)
    requires Chain(ev, seeds, c) && k < |c|
    requires seeds <= s && Invariant(ev, s)
    ensures c[k] in s
  {
    if k > 0 {
      ChainStays(ev, seeds, s, c, k - 1);
      assert c[k - 1 + 1] in Neighbours(ev, c[k - 1]);
    }
  }

  /** The closure is the least set that contains the seeds and is closed under the steps. */
  lemma ClosureIsLeast(ev: Evidence, seeds: set<string>)
    ensures seeds <= Closure(ev, seeds)
    ensures Invariant(ev, Closure(ev, seeds))
    ensures forall s: set<string> :: seeds <= s && Invariant(ev, s) ==> Closure(ev, seeds) <= s
  {
    forall id | id in seeds
      ensures id in Closure(ev, seeds)
    {
      assert Chain(ev, seeds, [id]) && [id][|[id]| - 1] == id;
    }
    forall id, next | id in Closure(ev, seeds) && next in Neighbours(ev, id)
      ensures next in Closure(ev, seeds)
    {
      LinkedStep(ev, seeds, id, next);
      LinkedIsMentioned(ev, seeds, next);
    }
    forall s: set<string>, id | seeds <= s && Invariant(ev, s) && id in Closure(ev, seeds)
      ensures id in s
    {
      var c :| Chain(ev, seeds, c) && c[|c| - 1] == id;
      ChainStays(ev, seeds, s, c, |c| - 1);
    }
  }

  /** Edges are followed forward, and conflicts either way. */
  ghost predicate Followed(ev: Evidence, s: set<string>) {
    && (forall e :: e in ev.edges && ev.edges[e].sourceId in s ==> ev.edges[e].targetId in s)
    && (forall c :: c in ev.conflicts ==> (c.leftNodeId in s <==> c.rightNodeId in s))
  }

  lemma FollowedIsInvariant(ev: Evidence, s: set<string>)
    ensures Followed(ev, s) <==> Invariant(ev, s)
  {
    if Followed(ev, s) {
      forall id | id in s
        ensures Neighbours(ev, id) <= s
      {
      }
    }
    if Invariant(ev, s) {
      forall e | e in ev.edges && ev.edges[e].sourceId in s
        ensures ev.edges[e].targetId in s
      {
        assert ev.edges[e].targetId in Neighbours(ev, ev.edges[e].sourceId);
      }
      forall c | c in ev.conflicts
        ensures c.leftNodeId in s <==> c.rightNodeId in s
      {
        assert c.rightNodeId in Neighbours(ev, c.leftNodeId) && c.leftNodeId in Neighbours(ev, c.rightNodeId);
      }
    }
  }

  /** What is loaded for some seeds: the least set with them that no edge leaves and no conflict
      crosses. */
  lemma ClosureFollows(ev: Evidence, seeds: set<string>)
    ensures seeds <= Closure(ev, seeds) && Followed(ev, Closure(ev, seeds))
    ensures forall s: set<string> :: seeds <= s && Followed(ev, s) ==> Closure(ev, seeds) <= s
  {
    ClosureIsLeast(ev, seeds);
    FollowedIsInvariant(ev, Closure(ev, seeds));
    forall s: set<string> | seeds <= s && Followed(ev, s)
      ensures Closure(ev, seeds) <= s
    {
      FollowedIsInvariant(ev, s);
    }
  }

  /** Rows already expanded point only at rows already found. */
  ghost predicate Expanded(ev: Evidence, reached: set<string>, pending: set<string>) {
    forall id :: id in reached && id !in pending ==> Neighbours(ev, id) <= reached
  }

  lemma ExpandStep(ev: Evidence, reached: set<string>, pending: set<string>, id: string, found: set<string>)
    requires Expanded(ev, reached, pending) && id in pending
    requires found == Neighbours(ev, id) - reached
    ensures Expanded(ev, reached + found, pending - {id} + found)
  {
  }

  lemma ShrinkingDifference(all: set<string>, reached: set<string>, found: set<string>)
    requires reached + found <= all && found !! reached
    ensures found == {} ==> all - (reached + found) == all - reached
    ensures found != {} ==> all - (reached + found) < all - reached
  {
    if x :| x in found {
      assert x in all - reached && x !in all - (reached + found);
    }
  }

  lemma ClosureStep(ev: Evidence, seeds: set<string>, reached: set<string>, id: string, found: set<string>)
    requires reached <= Closure(ev, seeds) && id in reached
    requires found == Neighbours(ev, id) - reached
    ensures reached + found <= Closure(ev, seeds)
  {
    ClosureIsLeast(ev, seeds);
  }

  lemma ClosureReached(ev: Evidence, seeds: set<string>, reached: set<string>)
    requires seeds <= reached <= Closure(ev, seeds) && Expanded(ev, reached, {})
    ensures reached == Closure(ev, seeds)
  {
    ClosureIsLeast(ev, seeds);
    assert Invariant(ev, reached);
  }

  /** The recursive query: a queue of fresh rows, duplicates discarded. */
  method Reach(ev: Evidence, seeds: set<string>) returns (reached: set<string>)
    ensures reached == Closure(ev, seeds)
  {
    ghost var all := Closure(ev, seeds);
    assert seeds <= all by {
      ClosureIsLeast(ev, seeds);
    }
    reached := seeds;
    var pending := seeds;
    while pending != {}
      invariant pending <= reached
      invariant seeds <= reached <= all
      invariant Expanded(ev, reached, pending)
      decreases all - reached, pending
    {
      var id :| id in pending;
      var found := Neighbours(ev, id) - reached;
      ClosureStep(ev, seeds, reached, id, found);
      ExpandStep(ev, reached, pending, id, found);
      ShrinkingDifference(all, reached, found);
      assert found == {} ==> pending - {id} + found < pending;
      reached := reached + found;
      pending := pending - {id} + found;
    }
    ClosureReached(ev, seeds, reached);
  }

  // ----- the slice

  /** Members among `kept`, edges leaving them, and conflicts between them. */
  function Restrict(ev: Evidence, kept: set<string>): Evidence {
    Evidence(
      map id | id in ev.nodes && id in kept :: ev.nodes[id],
      map e | e in ev.edges && ev.edges[e].sourceId in kept :: ev.edges[e],
      set c | c in ev.conflicts && c.leftNodeId in kept && c.rightNodeId in kept)
  }

  /** A restriction to a closed set leaves no dangling reference. */
  lemma RestrictClosed(ev: Evidence, kept: set<string>)
    requires ClosedEvidence(ev) && Invariant(ev, kept)
    ensures ClosedEvidence(Restrict(ev, kept))
  {
    forall e | e in Restrict(ev, kept).edges
      ensures ev.edges[e].targetId in kept
    {
      assert ev.edges[e].targetId in Neighbours(ev, ev.edges[e].sourceId);
    }
  }

  datatype Limits = Limits(maxNodes: nat, maxEdges: nat, maxConflicts: nat)

  datatype GraphSlice = GraphSlice(
    snapshotId: string,
    nodes: seq<Node>,
    edges: seq<Edge>,
    conflicts: seq<Conflict>,
    sources: seq<SourceState>)

  function SortedConflicts(conflicts: set<Conflict>): (r: seq<Conflict>)
    ensures StrictlySorted(ConflictLess, r)
    ensures forall c :: c in r <==> c in conflicts
    ensures |r| == |conflicts|
  {
    ConflictOrder();
    Listed(ConflictLess, conflicts)
  }

  function SourcesOf(db: Database, sid: string): seq<SourceState> {
    if sid in db.snapshots then Values(db.snapshots[sid].sources) else []
  }

  /** Limits are enforced on nodes, then edges, then conflicts; then rows are read in key order. */
  function Bounded(sid: string, ev: Evidence, sources: seq<SourceState>, limits: Limits)
    : Result<Option<GraphSlice>, StoreError>
  {
    if |ev.nodes| > limits.maxNodes then Err(SliceLimitExceeded("nodes", |ev.nodes|, limits.maxNodes))
    else if |ev.edges| > limits.maxEdges then Err(SliceLimitExceeded("edges", |ev.edges|, limits.maxEdges))
    else if |ev.conflicts| > limits.maxConflicts then
      Err(SliceLimitExceeded("conflicts", |ev.conflicts|, limits.maxConflicts))
    else
      Ok(Some(GraphSlice(sid, Values(ev.nodes), Values(ev.edges), SortedConflicts(ev.conflicts), sources)))
  }

  function CurrentSlice(db: Database, limits: Limits): Result<Option<GraphSlice>, StoreError> {
    match db.current
    case None => Ok(None)
    case Some(sid) => Bounded(sid, EvidenceOf(db, sid), SourcesOf(db, sid), limits)
  }

  ghost function ProofSlice(db: Database, seeds: seq<string>, limits: Limits)
    : Result<Option<GraphSlice>, StoreError>
  {
    if |seeds| > limits.maxNodes then Err(SliceLimitExceeded("nodes", |seeds|, limits.maxNodes))
    else
      match db.current
      case None => Ok(None)
      case Some(sid) =>
        var ev := EvidenceOf(db, sid);
        Bounded(sid, Restrict(ev, Closure(ev, Elements(seeds))), SourcesOf(db, sid), limits)
  }
}
