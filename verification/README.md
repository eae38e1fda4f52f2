# Rationale: a verified model

Rationale answers "why is this code here?" from evidence: it collects commits, documents and
forge records into an immutable snapshot store, slices the current snapshot around a target,
and lets a small OCaml proof kernel, run as a supervised worker process, decide between four
verdicts. This Dafny project models that pipeline and proves what it promises.

| module | what it models |
|---|---|
| `Model`, `Rules`, `Proof`, `Graph`, `Traversal`, `Evaluator` | the proof kernel: typed evidence, admission rules, supersession, the breadth-first loop over a mutable queue, conflicts and the choice of a verdict |
| `Meaning`, `Paths`, `Verdicts`, `Chains`, `Refusals` | what a request says, without the kernel's data structures, and the proof that the kernel answers exactly that |
| `OrderIrrelevance`, `Removal`, `Answers`, `Parts`, `Slicing`, `Examples` | how an answer changes when the request is permuted, thinned out or sliced, exactly when two requests are answered alike, and the concrete requests on which plausible stronger claims fail |
| `Tables`, `Statements`, `Runs`, `Reachable`, `Store` | the evidence store: committed tables and one open transaction, every run of calls, the recursive reachability query, and the two classes that update them |
| `Targets`, `References`, `Why`, `Losses`, `Shortfalls` | the request behind `why`: target attachment, what it adds, the request over a slice, and exactly what that loses |
| `Engine`, `Carrying`, `Publication`, `Offers`, `Synchronisations` | assembling and merging evidence, carrying forge rows over, publication, and runs of synchronisations |
| `Framing`, `Json`, `Codec`, `Protocol` | length-prefixed frames over channels, strict JSON objects, every encoder and decoder of the protocol, and the host's canonicalisation |
| `Worker`, `Supervisor`, `Composition` | the worker loop, the supervisor with crashes, deadlines, cancelled callers and bounded restarts, and the statement about the whole pipeline |
| `Nesting` | the nesting check on document metadata |
| `Wrappers`, `Sequences`, `Ordering`, `Duplicates` | options and results, list combinators with their membership and multiplicity facts, orders and sorting, the repetition check |

Identifiers are strings in their byte order, JSON is a tree (texts are bytes only on the wire),
hashes are collision-free names of their material, and the kernel's caps are the source's
constants. Where a statement one would like to make is false of the code, the table gives the
input that refutes it and the exact condition under which it holds:

* the text of a missing-reference error depends on the order of the request's lists, exactly
  when two different references dangle (`OrderSensitivity`, `MissingMessageDependsOnOrder`);
* deleting an edge that lies on every *returned* chain can leave the answer established
  (`ChainEdgeNotDecisive`); it ceases to be established exactly when the edge lies on every
  path to an anchor (`DecisiveEdge`);
* deleting an edge can turn a conflict into an established answer (`RemovalCanEstablish`);
  whatever the answer was, it is established afterwards exactly when no conflict keeps both
  its sides reached and some path to an anchor survives (`RemovalVerdict`);
* a slice can answer differently from the snapshot (`SliceCanDiffer`): supersession agrees
  exactly when superseders are kept (`SupersessionAgrees`), the simple paths agree exactly when
  the slice adds no link where its walks go (`PathsCoincide`), and the two answers are identical
  exactly when what the slice returned stands under the supersession of the snapshot
  (`SliceAnswersExactly`);
* a commit made after the last synchronisation can lose the stored records its message refers to,
  so `why` can miss an explanation that the snapshot holds
  (`UnsynchronisedCommitLosesReference`); what is lost is exactly what depends on a reference to
  a stored record that the walk did not find (`WhyLosesExactly`, `WhyLosesNothing`), and for every
  target `WhyAnswersTheSame` says exactly when the answer is that of the whole snapshot;
* synchronisation can be refused, for a published record whose content has changed
  (`ChangedRecordRefused`) and for content that was published earlier and then replaced
  (`GoingBackIsRefused`): it publishes exactly when its content is new and no stored immutable id
  would change content, and never fails for an unresolved reference (`PublishEvidence`,
  `SyncOutcomes`);
* a forge edge that was dropped does not come back with carried rows (`DroppedEdgeStaysLost`);
  carrying over is faithful exactly when nothing it would take now was dropped then
  (`CarriedExactly`).

## Model

| member | source | states |
|---|---|---|
| `Duplicates.DuplicateMeaning` | ocaml/lib/evaluator.ml:19-26 | sorting and comparing neighbours finds a repetition exactly when there is one |
| `Duplicates.DuplicateTwice` | ocaml/lib/evaluator.ml:19-26 | the value reported as duplicate really occurs at least twice |
| `Proof.PathOrder` | ocaml/lib/proof.ml:7-15 | the path comparison is a strict total order |
| `Proof.ConflictOrder` | ocaml/lib/proof.ml:17-23 | the conflict comparison is a strict total order |
| `Proof.IsPrefixMeaning` | ocaml/lib/proof.ml:28-33 | the recursive prefix test is the prefix relation on sequences |
| `Ordering.StringsLessMeaning` | ocaml/lib/proof.ml:7-15 | lists of strings are compared at the first difference, by character codes, a proper prefix first |
| `Graph.SupersededMeaning` | ocaml/lib/evaluator.ml:94-104 | an id is superseded exactly when some current Supersedes edge from a current node points at it |
| `Graph.ActiveEdgesDistinct` | ocaml/lib/evaluator.ml:109-125 | the active edges are exactly the traversable edges between active nodes, each once |
| `Graph.ActiveEdgesOrdered` | ocaml/lib/evaluator.ml:109-125 | and the traversal follows them by source, then target, then id |
| `Graph.OutgoingMeaning` | ocaml/lib/evaluator.ml:127-134 | the grouped map answers, for every node, exactly the sublist of edges leaving it, in order |
| `Traversal.PathQueue.Add` | ocaml/lib/evaluator.ml:138-140 | the queue grows at the back by exactly the path |
| `Traversal.PathQueue.Take` | ocaml/lib/evaluator.ml:150-152 | the queue loses exactly its front path, which is returned |
| `Traversal.EnqueueSuccessors` | ocaml/lib/evaluator.ml:164-175 | the inner loop enqueues exactly the one-edge continuations that repeat no node, in edge order |
| `Traversal.CostDecreases` | ocaml/lib/evaluator.ml:146-175 | taking the front path and adding its continuations lowers a measure of the remaining extensions, so the loop ends even without the cap, whatever cycles the graph has |
| `Traversal.Traverse` | ocaml/lib/evaluator.ml:136-177 | the queue-driven loop computes the specified traversal: the path list, anchors and reachable set, or the first error it meets |
| `Paths.ExploreSound` | ocaml/lib/evaluator.ml:146-175 | everything the exploration yields from simple paths is a simple path |
| `Paths.ExploreComplete` | ocaml/lib/evaluator.ml:146-175 | every simple path that continues a queued path is yielded |
| `Paths.ExploreDistinct` | ocaml/lib/evaluator.ml:146-175 | no path is yielded twice, parallel edges making different paths |
| `Paths.ExploreNondecreasing` | ocaml/lib/evaluator.ml:146-175 | paths are yielded in nondecreasing length |
| `Paths.TraversalExactness` | ocaml/lib/evaluator.ml:136-177 | the traversal lists every simple path from the target exactly once, shorter ones first, and nothing else |
| `Paths.SimplePathCount` | ocaml/lib/evaluator.ml:143-149 | the length of the list is the number of simple paths |
| `Meaning.ValidateMeaning` | ocaml/lib/evaluator.ml:33-92 | validation accepts exactly the well-formed requests and returns their index by id |
| `Meaning.ActiveMeaning` | ocaml/lib/evaluator.ml:94-107 | a node is active in the kernel exactly when it is current and no current node supersedes it |
| `Meaning.LinkMeaning` | ocaml/lib/evaluator.ml:109-125 | an edge is in the kernel's active graph exactly when it is a current non-Supersedes edge between active nodes of the request |
| `Refusals.RefusedExactly` | ocaml/lib/evaluator.ml:33-92 | each error code is given exactly for its fault: another version; too many nodes, edges or paths; a goal without or with other kinds, or a repeated id; a missing target or endpoint; in that order |
| `Refusals.MalformedText` | ocaml/lib/evaluator.ml:41-63 | the text of an invalid request: about the goal first, else it names an id that occurs twice |
| `Refusals.DanglingText` | ocaml/lib/evaluator.ml:64-92 | the text of a missing record: the target first, else an edge, else the rule of a conflict, with a missing endpoint |
| `Refusals.VersionText` | ocaml/lib/evaluator.ml:34-37 | the text for another version ends with that version in decimal notation |
| `Verdicts.WalkToPath` | ocaml/lib/evaluator.ml:136-177 | whatever a walk with repetitions reaches, some simple path reaches |
| `Verdicts.ReachableMeaning` | ocaml/lib/evaluator.ml:136-177 | the reachable set is exactly what walks from the target reach |
| `Verdicts.EvaluationMeaning` | ocaml/lib/evaluator.ml:230-259 | a proof is returned exactly for well-formed requests within the path-state cap, and it is the conclusion of a completed traversal |
| `Verdicts.ResourceBoundExactness` | ocaml/lib/evaluator.ml:143-149 | the path-state error is reported exactly when the simple paths from the target outnumber the cap |
| `Verdicts.VerdictCharacterisation` | ocaml/lib/evaluator.ml:230-259 | each of the four verdicts holds exactly when the request says so: conflict among engaged nodes, anchor reached by a walk, target without a link, or none of these |
| `Chains.EveryPathIsCovered` | ocaml/lib/proof.ml:35-45 | every path is the beginning of a maximal one |
| `Chains.CanonicalChains` | ocaml/lib/proof.ml:35-58 | the chains of an established proof are strictly increasing, none continues another, each checks independently against the request, and every path to an anchor is the beginning of one |
| `Chains.ConflictsReported` | ocaml/lib/evaluator.ml:179-217 | a conflicted proof lists, in strict order, exactly the explicit and the subject/outcome conflicts between engaged nodes |
| `Chains.ListedInOrder` | ocaml/lib/proof.ml:7-23 | chains are listed with fewer edges first, then by edge ids and node ids; conflicts by left record, right record and rule |
| `Chains.GapReported` | ocaml/lib/evaluator.ml:219-228 | an incomplete proof names one gap, after the last record of a longest path, with the code and the missing kind that belong to the kind of that record |
| `Evaluator.Evaluate` | ocaml/lib/evaluator.ml:230-259 | the kernel as it runs computes the specified response, and no partial step fails |
| `OrderIrrelevance.InputOrderIrrelevant` | ocaml/lib/evaluator.ml:109-134 | permuting nodes, edges and conflicts of a well-formed request gives the identical response |
| `OrderIrrelevance.ErrorCodeOrderIrrelevant` | ocaml/lib/evaluator.ml:33-92 | permuting any request never changes whether it fails and with which code |
| `OrderIrrelevance.OrderSensitivity` | ocaml/lib/evaluator.ml:65-92 | the whole response is independent of order exactly when no two dangling references compete for the message |
| `OrderIrrelevance.AmbiguousDiffers` | ocaml/lib/evaluator.ml:65-92 | where they do compete, two permutations with different responses are given |
| `Removal.RemovalMonotonicity` | ocaml/lib/evaluator.ml:94-177 | withdrawing non-Supersedes edges shrinks anchor paths, reachability and conflicts, never adds an error, and never turns an incomplete answer into an established or conflicted one |
| `Removal.RemovalVerdict` | ocaml/lib/evaluator.ml:230-259 | for any answered request and any withdrawal of non-Supersedes edges, whatever the verdict was: conflicted afterwards exactly when a conflict keeps both sides reached, established exactly when none does and a path to an anchor survives, not established exactly when neither holds and the target keeps no link; this says when a conflicted answer becomes established |
| `Removal.DecisiveRemoval` | ocaml/lib/evaluator.ml:230-259 | an established answer stays established exactly when some path to an anchor survives the withdrawal |
| `Removal.DecisiveEdge` | ocaml/lib/evaluator.ml:230-259 | deleting one edge from an established answer makes it incomplete exactly when the edge lies on every path to an anchor |
| `Examples.SmallRequestAnswered` | ocaml/lib/rules.ml:3-5 | a bound on the number of edges alone guarantees that the path-state cap is not hit |
| `Examples.MissingMessageDependsOnOrder` | ocaml/lib/evaluator.ml:69-88 | a request and a permutation of it with different error messages |
| `Examples.RemovalCanEstablish` | ocaml/lib/evaluator.ml:244-246 | a conflicted request that deleting one edge makes established |
| `Examples.ChainEdgeNotDecisive` | ocaml/lib/proof.ml:35-58 | a request whose every returned chain uses an edge that can be deleted without losing the answer |
| `Answers.ConflictedAgree` | ocaml/lib/evaluator.ml:179-217 | two conflicted answers to one question are the same exactly when the same conflicts hold |
| `Answers.EstablishedAgree` | ocaml/lib/proof.ml:35-58 | two established answers to one question are the same exactly when the same paths lead to anchors |
| `Answers.IncompleteAgree` | ocaml/lib/evaluator.ml:219-228 | two incomplete answers to one question are the same exactly when deepest paths of the two end at one record |
| `Answers.ResponsesAgree` | ocaml/lib/evaluator.ml:230-259 | two well-formed requests asking one question get the identical response exactly when both are refused, or both are answered and the conflicts, the anchor paths or the frontiers agree, whichever the verdict is about |
| `Parts.PathsOfPart` | ocaml/lib/evaluator.ml:136-177 | the paths of a request over part of the evidence that pass no record superseded in the whole are the paths of the whole that use only edges of the part |
| `Parts.AnchorsOfPart` | ocaml/lib/evaluator.ml:136-177 | the same for paths to anchors |
| `Parts.ReachedInPart` | ocaml/lib/evaluator.ml:136-177 | a record is reached in the part by a path that stands exactly when it is active in the whole and reached there over edges of the part |
| `Parts.PartAnswersExactly` | ocaml/lib/evaluator.ml:230-259 | the whole is answered like the part exactly when both have too many paths, or both do not and nothing that decides the verdict is lost and what the part returned stands: conflicts with engaged sides, chains without a superseded record, a gap where a deepest path ends |
| `Slicing.SliceLosesNothing` | crates/rationale-store/src/lib.rs:11-33 | every path to an anchor and every conflict of the snapshot is one of the slice |
| `Slicing.SupersessionAgrees` | crates/rationale-store/src/lib.rs:11-33 | slice and snapshot agree on what is superseded exactly when every superseded kept record has a current superseder that is kept |
| `Slicing.SupersedersSettle` | crates/rationale-store/src/lib.rs:11-33 | if superseders of kept records are kept, everything that the walks of the slice reach is superseded in the slice whenever it is in the snapshot |
| `Slicing.SliceAnswersExactly` | crates/rationale-store/src/lib.rs:11-33 | slice and snapshot get the identical response if and only if what the slice returned stands under the supersession of the snapshot: both sides of every listed conflict are reached by paths without a superseded record, no record on a chain is superseded, the deepest path without one ends at the gap; and a refusal is shared if and only if the paths without a superseded record are still too many |
| `Slicing.SliceAnswersTheSame` | crates/rationale-store/src/lib.rs:11-33 | in particular when everything the walks of the slice reach is superseded in the slice whenever it is in the snapshot, the path-state limit included |
| `Slicing.PathsCoincide` | crates/rationale-store/src/lib.rs:11-33 | slice and snapshot have the same simple paths from the target exactly when the slice adds no link between two different nodes at a node its walks reach |
| `Tables.FirstLeaving` | crates/rationale-store/src/lib.rs:860-918 | a refused publication names the least edge that leaves the snapshot, or, when none does, the least rule of a conflict that does |
| `Runs.StepKeeps` | crates/rationale-store/src/lib.rs:611-815 | every call of the store keeps its invariant and takes no row from the committed tables |
| `Runs.StoreInvariant` | crates/rationale-store/src/lib.rs:611-917 | after any run the current pointer names a published snapshot, every committed snapshot is published and contains all endpoints of its edges and conflicts, and content is stored under its own id |
| `Runs.ImmutableForEver` | migrations/0001_initial.sql:103-137 | whatever follows, committed content, and the membership of a committed snapshot, stay what they were |
| `Runs.AtomicPublication` | crates/rationale-store/src/lib.rs:781-815 | committed state changes exactly at a successful publication, and then is exactly the candidate's tables with the snapshot published and current, and the cursor of exactly the sources it supplies one for replaced |
| `Runs.CursorsFollowPublications` | crates/rationale-store/src/lib.rs:786-797 | after any run a source's cursor is the one in the most recent published snapshot that supplied one, and the current snapshot is the last published |
| `Reachable.ClosureIsLeast` | crates/rationale-store/src/lib.rs:11-33 | the closure is the least set containing the seeds and closed under edges forward and conflicts both ways |
| `Reachable.ClosureFollows` | crates/rationale-store/src/lib.rs:11-33 | in terms of rows: the least set with the seeds that no edge leaves and no conflict crosses |
| `Reachable.Reach` | crates/rationale-store/src/lib.rs:11-33 | the recursive query, run as a worklist that discards duplicates, ends with exactly that set |
| `Reachable.RestrictClosed` | crates/rationale-store/src/lib.rs:1021-1086 | the rows loaded for a closed set of ids have no dangling reference |
| `Store.EvidenceStore.constructor` | crates/rationale-store/src/lib.rs:193-203 | a new store is empty, consistent and without a writer |
| `Store.EvidenceStore.BeginCandidate` | crates/rationale-store/src/lib.rs:213-229 | an existing id is refused and changes nothing; otherwise the candidate's tables are the committed ones plus one empty snapshot |
| `Store.EvidenceStore.CurrentSnapshotId` | crates/rationale-store/src/lib.rs:236-245 | the committed current pointer |
| `Store.EvidenceStore.SourceCursor` | crates/rationale-store/src/lib.rs:476-485 | the committed cursor of the source |
| `Store.CurrentSliceMeaning` | crates/rationale-store/src/lib.rs:255-330 | what loading the current slice gives on any valid database: all member records, edges, conflicts and source states and nothing else, each list in strict key order, or the first limit exceeded with the actual size, or nothing before the first publication |
| `Store.EvidenceStore.LoadCurrentSlice` | crates/rationale-store/src/lib.rs:255-330 | on a valid database the slice lists exactly the members of the current snapshot in strict key order, or names the first limit exceeded and the size, or there is no snapshot yet |
| `Store.EvidenceStore.LoadCurrentProofSlice` | crates/rationale-store/src/lib.rs:343-382 | the current snapshot restricted to the least closure of the seeds, or the first exceeded limit |
| `Store.CandidateSnapshot.InsertRecord` | crates/rationale-store/src/lib.rs:618-634 | stores and adds the record, or refuses a changed immutable id and leaves the candidate as it was |
| `Store.CandidateSnapshot.InsertEdge` | crates/rationale-store/src/lib.rs:644-668 | the same for edges, whose endpoints must be stored records |
| `Store.CandidateSnapshot.InsertConflict` | crates/rationale-store/src/lib.rs:676-723 | the same for conflicts |
| `Store.CandidateSnapshot.SetSourceState` | crates/rationale-store/src/lib.rs:731-752 | the candidate's state of one source is replaced |
| `Store.CandidateSnapshot.Quarantine` | crates/rationale-store/src/lib.rs:759-773 | one diagnostic is appended to the candidate |
| `Store.CandidateSnapshot.Publish` | crates/rationale-store/src/lib.rs:781-805 | commits everything exactly when all references resolve; otherwise it names the first that does not, nothing is committed, and either way the transaction is over |
| `Store.CandidateSnapshot.Abandon` | crates/rationale-store/src/lib.rs:812-815 | the committed tables are untouched |
| `Targets.AttachPresent` | crates/rationale-engine/src/lib.rs:1028-1038 | the loop inserts exactly the edges whose target is present |
| `Targets.AttachCommitReferences` | crates/rationale-engine/src/lib.rs:1028-1038 | a commit's references are attached exactly where their target is a node |
| `Targets.AttributeLines` | crates/rationale-engine/src/lib.rs:1000-1022 | every attributed commit becomes a node if absent and is linked from the line target |
| `Targets.AttachTarget` | crates/rationale-engine/src/lib.rs:963-1026 | the two kinds of target, attached in place, give the specified nodes, edges and target id |
| `References.CommitAttachedExactly` | crates/rationale-engine/src/lib.rs:942-976 | attaching a commit: its own record is added if there is none; every issue, story and decision of its message that is a record becomes a current edge, resolving or documenting it, with the message as origin; a forge link gives none, no other edge is added and nothing is removed |
| `References.LinesRecords` | crates/rationale-engine/src/lib.rs:977-1018 | attaching lines: the record of the place, named after path, lines and revision, and a record for each commit it has none of; all others stay |
| `References.LinesLinks` | crates/rationale-engine/src/lib.rs:1019-1022 | attaching lines: a current introduced-by edge from the place to every attributed commit, and no other; nothing is removed |
| `Why.RequestsAreAnswered` | crates/rationale-engine/src/lib.rs:537-559 | a request built over closed evidence is answered by a proof or a resource limit, never by a missing record or an invalid request |
| `Why.WhyIsAnswered` | crates/rationale-engine/src/lib.rs:517-559 | after any run of the store, the request over the current snapshot is answered by a proof or a resource limit |
| `Why.FreshLinesAreNew` | crates/rationale-engine/src/lib.rs:985-1000 | a line target that is no record of the snapshot is one a slice can be cut for |
| `Why.SliceableExactly` | crates/rationale-engine/src/lib.rs:517-559 | the request over the slice is exactly the part of the request over the snapshot about the kept ids if and only if: for a commit, every record of the snapshot that its message refers to was walked to; for lines, the target was walked to or no stored edge leaves it and no stored conflict ties it to a kept record |
| `Shortfalls.UnsynchronisedCommitLosesReference` | crates/rationale-engine/src/lib.rs:1028-1038 | a commit made after the last synchronisation whose message refers to a stored work item: over the snapshot the answer is established, over its slice it is not |
| `Shortfalls.SliceCanDiffer` | crates/rationale-store/src/lib.rs:11-33 | a snapshot and a commit in it for which the slice `why` asks over, exactly the reachable part, is answered established and the snapshot is not, because a superseder is left behind |
| `Losses.FormedNames` | crates/rationale-engine/src/lib.rs:1040-1050 | edge ids formed from ids without the separator are collision-free names: a stored edge under the id of a reference has its endpoints |
| `Losses.QueryIdsDiffer` | crates/rationale-engine/src/lib.rs:1112-1115 | questions about different snapshots, or different questions, have different ids |
| `Losses.AttachedButLost` | crates/rationale-engine/src/lib.rs:963-1038 | for every target, attaching to the slice gives exactly the part of attaching to the snapshot about the kept ids, but for the lost edges: references of a commit to stored records that were not walked to, and what is stored about a line target that was not walked to |
| `Losses.WhyLosesExactly` | crates/rationale-engine/src/lib.rs:517-559 | for every target, a path to an anchor is lost exactly when it uses a lost edge, and a conflict exactly when the store does not load it or a side is reached neither without a lost edge nor, in the slice, through a superseded record |
| `Losses.WhyLosesNothing` | crates/rationale-engine/src/lib.rs:517-559 | asking over the slice loses no path to an anchor and no conflict if and only if none of them depends on a lost edge |
| `Losses.WhyAnswersTheSame` | crates/rationale-engine/src/lib.rs:517-559 | for every target, the response over the slice is the response over the snapshot if and only if both requests are too large in the same way, or both have too many paths, or nothing that decides the verdict is lost and the answer stands under the supersession of the snapshot |
| `Why.LoadProofEvidence` | crates/rationale-engine/src/lib.rs:525-535 | loads the proof slice for the target's seeds, or reports the store's error or the absence of a snapshot |
| `Why.PrepareRequest` | crates/rationale-engine/src/lib.rs:517-559 | the request assembled in place is the specified request over the current snapshot's slice; it fails exactly for the store's own error or for want of a snapshot |
| `Engine.NothingVanishes` | crates/rationale-engine/src/lib.rs:786-820 | every proposed edge that resolves is in the prepared evidence under its id, replaced only by a later one with that id; every other edge and conflict is reported, and kept and reported add up to what was proposed |
| `Engine.PreparedRecords` | crates/rationale-engine/src/lib.rs:775-793 | prepared records are the ingested ones and one for each commit, which wins over a document that claims its id |
| `Engine.ProposedReferences` | crates/rationale-engine/src/lib.rs:794-805 | the edges that commits propose are the issues, stories and decisions of their messages, and no other |
| `Engine.PreparedIsLocal` | crates/rationale-engine/src/lib.rs:775-827 | what is prepared from history and from documents that do not claim to come from the forge holds no forge row: no commit is ever carried over as one |
| `Engine.PreparedIsClosed` | crates/rationale-engine/src/lib.rs:775-827 | prepared evidence has every edge and conflict endpoint among its records |
| `Engine.MergedIsClosed` | crates/rationale-engine/src/lib.rs:758-773 | merging keeps that, whatever the forge supplied |
| `Engine.EngineEvidenceIsClosed` | crates/rationale-engine/src/lib.rs:758-827 | any number of merges keeps that |
| `Engine.RemergeReproduces` | crates/rationale-engine/src/lib.rs:408-440 | extracting the forge part of a merge and merging it into the same local evidence reproduces the same graph |
| `Carrying.ChosenMeaning` | crates/rationale-engine/src/lib.rs:758-773 | merging takes from a contribution, for each id, the first edge that resolves |
| `Carrying.CarriedExactly` | crates/rationale-engine/src/lib.rs:340-354 | forge rows carried over to changed local evidence give what the contribution itself would give if and only if no forge record had given way to a local one that is gone, and every edge that would be taken now was taken then |
| `Carrying.DroppedEdgeStaysLost` | crates/rationale-engine/src/lib.rs:340-354 | a forge edge dropped for want of a local decision does not come back when the decision is written and the forge reports that nothing was modified |
| `Engine.PreparedEvidence.constructor` | crates/rationale-engine/src/lib.rs:775-827 | the builder ends with exactly the prepared graph and one diagnostic for each dropped edge and conflict, in order |
| `Engine.PreparedEvidence.AddEdges` | crates/rationale-engine/src/lib.rs:794-805 | keeps the edges that resolve, later ones winning, and reports each other one |
| `Engine.PreparedEvidence.AddConflicts` | crates/rationale-engine/src/lib.rs:807-820 | keeps the conflicts that resolve, in order, and reports each other one |
| `Engine.PreparedEvidence.MergeGitHub` | crates/rationale-engine/src/lib.rs:758-773 | the in-place merge is the specified one and keeps the evidence closed |
| `Publication.RecordsAccepted` | crates/rationale-store/src/lib.rs:818-858 | records are refused exactly when a stored id would change content, and the error names such an id |
| `Publication.EdgesAccepted` | crates/rationale-store/src/lib.rs:644-668 | the same for edges between stored records |
| `Publication.FillHolds` | crates/rationale-engine/src/lib.rs:485-507 | closed evidence is accepted by an empty candidate exactly when no immutable id would change content, and then the candidate holds exactly that evidence, the source states and the diagnostics; a refusal names such an id, records before edges |
| `Publication.WrittenExactly` | crates/rationale-engine/src/lib.rs:485-507 | the same in terms of the committed state before the call |
| `Publication.WrittenBecomesCurrent` | crates/rationale-engine/src/lib.rs:507-509 | and then publication succeeds, and the current snapshot is exactly the evidence, the source states and the diagnostics |
| `Publication.WrittenKeeps` | crates/rationale-engine/src/lib.rs:479-509 | a synchronisation keeps the invariant of the store and every row committed before |
| `Publication.ChangedRecordRefused` | crates/rationale-store/src/lib.rs:838-858 | a published record offered again with other content: the synchronisation is refused, whatever else it carries |
| `Offers.SameContent` | crates/rationale-engine/src/lib.rs:1068-1104 | two offers have one name exactly when they hold the same records and edges, the same conflicts and diagnostics each as often, and the same states of every source but for the time of observation |
| `Publication.PriorGitHubContribution` | crates/rationale-engine/src/lib.rs:408-440 | what is carried over is exactly the records and edges of the current snapshot whose origin is GitHub, and the state of the source; it fails only beyond 100000 rows of a kind |
| `Publication.HeldIsStored` | crates/rationale-engine/src/lib.rs:507-509 | a candidate holding closed evidence is published without an unresolved reference, and reading it back gives that evidence |
| `Publication.StoredContributionReproduces` | crates/rationale-engine/src/lib.rs:408-440 | the forge rows of a published merge, read back by the next synchronisation and merged into the same local evidence, reproduce the merge |
| `Publication.Fill` | crates/rationale-engine/src/lib.rs:485-506 | the write loops, in order, stop at the first refusal |
| `Publication.WriteAndPublish` | crates/rationale-engine/src/lib.rs:485-509 | the statements after the candidate is opened |
| `Publication.PublishEvidence` | crates/rationale-engine/src/lib.rs:442-509 | under the name of its content, which leaves out observation times: nothing happens when that snapshot is current; otherwise it is published if and only if the name is new and no immutable id would change content, and the current snapshot is then exactly what was given; every refusal has its stated cause and changes nothing |
| `Synchronisations.SyncOutcomes` | crates/rationale-engine/src/lib.rs:442-509 | in every run of synchronisations from an empty store: unchanged exactly when the same was published last, refused by the id constraint exactly when it was published before but not last, published exactly when it never was and no immutable id would change content |
| `Synchronisations.UnchangedExactly` | crates/rationale-engine/src/lib.rs:457-474 | for offers that repeat no conflict and no source: unchanged if and only if the current snapshot already holds exactly the offered records, edges, conflicts and diagnostics and the states of the sources up to the time of observation |
| `Synchronisations.GoingBackIsRefused` | crates/rationale-engine/src/lib.rs:1068-1104 | any evidence synchronised, then with other reports or source states, then as at first: published, published, refused |
| `Framing.HeaderRoundTrip` | ocaml/worker/framing.ml:5-30 | the four big-endian bytes written for a length are read back as that length |
| `Framing.InChannel.InputChar` | ocaml/worker/framing.ml:15-30 | reading one byte consumes exactly one, or finds the end |
| `Framing.InChannel.ReallyInput` | ocaml/worker/framing.ml:32-38 | exactly as many bytes as asked, or the end with everything consumed |
| `Framing.OutChannel.OutputChar` | ocaml/worker/framing.ml:5-13 | one byte is appended |
| `Framing.OutChannel.OutputString` | ocaml/worker/framing.ml:5-13 | the payload is appended |
| `Framing.WriteFrame` | ocaml/worker/framing.ml:5-13 | appends exactly one frame, or refuses a payload whose length does not fit and writes nothing |
| `Framing.ReadHeader` | ocaml/worker/framing.ml:15-30 | a length, a clean end before the first byte, or a truncation inside the header |
| `Framing.ReadFrame` | ocaml/worker/framing.ml:32-38 | a payload, or the precise reason, leaving exactly the unread bytes |
| `Framing.StreamRoundTrip` | ocaml/worker/framing.ml:5-38 | frames written back to back are read back as written, then a clean end |
| `Framing.CutStream` | ocaml/worker/framing.ml:15-38 | a stream cut anywhere is read back as a prefix of the payloads, ending cleanly exactly when the cut falls between frames |
| `Framing.DecodeFrameExact` | crates/rationale-protocol/src/lib.rs:50-85 | the host accepts exactly the byte strings that are one frame within the bound |
| `Framing.DecodeFrameRefuses` | crates/rationale-protocol/src/lib.rs:50-85 | every refusal has its cause: no whole header, a declared length beyond the bound, fewer bytes than declared, or more |
| `Framing.DecoderAgreesWithReader` | crates/rationale-protocol/src/lib.rs:50-85 | the host's decoder and the worker's reader agree on whole frames |
| `Json.OrderedIsCanonical` | ocaml/lib/model.ml:118-120 | a value whose keys are strictly sorted at every object is its own canonical form |
| `Json.DuplicateKeyMeaning` | ocaml/lib/model.ml:136-146 | the duplicate check fires exactly when two fields share a key |
| `Json.ObjectExact` | ocaml/lib/model.ml:118-169 | an object has the canonical form of a list of fields exactly when it has no repeated and no other key and every lookup agrees |
| `Json.ListExact` | ocaml/lib/model.ml:125-134 | the list decoder accepts exactly the encodings of lists, element by element, in order |
| `Json.RequiredExact` | ocaml/lib/model.ml:155-161 | a required field is read as a value exactly when its lookup is that value's encoding |
| `Json.OptionalExact` | ocaml/lib/model.ml:163-169 | an optional field is read as absent exactly when it is absent |
| `Json.RefusedField` | ocaml/lib/model.ml:155-169 | an absent required field is reported missing, and one that does not decode is reported with reason and place |
| `Json.FieldsExact` | ocaml/lib/model.ml:136-153 | the key check accepts exactly objects without repeated or unknown keys |
| `Json.RecordCodec` | ocaml/lib/model.ml:118-169 | a record whose fields are coded exactly is coded exactly |
| `Codec.NodeKindCodec` | ocaml/lib/model.ml:171-186 | the vocabulary is closed and its names are told apart |
| `Codec.EdgeKindCodec` | ocaml/lib/model.ml:188-205 | likewise |
| `Codec.StatusCodec` | ocaml/lib/model.ml:207-214 | likewise |
| `Codec.SourceKindCodec` | ocaml/lib/model.ml:216-229 | likewise |
| `Codec.VerdictCodec` | ocaml/lib/model.ml:388-399 | likewise |
| `Codec.GapCodeCodec` | ocaml/lib/model.ml:401-416 | likewise |
| `Codec.ErrorCodeCodec` | ocaml/lib/model.ml:481-494 | likewise |
| `Codec.OriginCodec` | ocaml/lib/model.ml:231-254 | the decoder accepts exactly the reorderings of encodings, and encodings are sorted, for every combination of optional fields |
| `Codec.NodeCodec` | ocaml/lib/model.ml:256-283 | likewise |
| `Codec.EdgeCodec` | ocaml/lib/model.ml:285-309 | likewise |
| `Codec.ConflictCodec` | ocaml/lib/model.ml:311-327 | likewise |
| `Codec.GoalCodec` | ocaml/lib/model.ml:329-347 | likewise |
| `Codec.RequestCodec` | ocaml/lib/model.ml:349-386 | likewise |
| `Codec.GapCodec` | ocaml/lib/model.ml:418-438 | likewise |
| `Codec.ProofChainCodec` | ocaml/lib/model.ml:440-455 | likewise |
| `Codec.ProofResultCodec` | ocaml/lib/model.ml:457-479 | likewise |
| `Codec.ProtocolErrorCodec` | ocaml/lib/model.ml:496-508 | likewise |
| `Codec.ResponseCodec` | ocaml/lib/model.ml:510-570 | likewise for both kinds of response, told apart by their status |
| `Protocol.RequestRoundTrip` | ocaml/lib/model.ml:349-386 | decoding the encoding of any request gives it back, and the encoding is strictly sorted at every object |
| `Protocol.RequestDecoding` | ocaml/lib/model.ml:361-386 | a value is accepted as a request exactly when it canonicalises to its encoding, and then no object in it, at any depth, repeats a key |
| `Protocol.RequestFieldOrder` | ocaml/lib/model.ml:361-386 | whether and as what a value is accepted depends on its canonical form only |
| `Protocol.ResponseRoundTrip` | ocaml/lib/model.ml:510-570 | the same round trip for responses |
| `Protocol.ResponseDecoding` | ocaml/lib/model.ml:544-570 | the same exactness for responses |
| `Protocol.StrictObjects` | ocaml/lib/model.ml:136-153 | an object with a repeated or unknown key is refused, and the error names such a key |
| `Protocol.ContentIdentifies` | crates/rationale-store/src/lib.rs:838-858 | comparing canonical values is comparing the records |
| `Protocol.CanonicalOrdered` | crates/rationale-protocol/src/lib.rs:109-131 | canonicalising gives strictly sorted keys at every object exactly when no object repeats a key |
| `Protocol.RearrangedCanonical` | crates/rationale-protocol/src/lib.rs:109-131 | the order of an object's fields does not affect its canonical form |
| `Protocol.CanonicalIdempotent` | crates/rationale-protocol/src/lib.rs:109-131 | canonicalising twice is canonicalising once |
| `Protocol.CanonicalizeValue` | crates/rationale-protocol/src/lib.rs:109-131 | the in-place recursion computes the canonical form |
| `Worker.Loop` | ocaml/worker/main.ml:70-79 | the loop writes exactly the specified replies to the frames it reads and stops for the specified reason |
| `Worker.OneFrameEach` | ocaml/worker/main.ml:66-79 | payloads within the bounds are each answered by one frame, in order |
| `Worker.HelloHandled` | ocaml/worker/main.ml:33-47 | a greeting, in any field order, is answered with readiness |
| `Worker.EvaluateHandled` | ocaml/worker/main.ml:48-63 | a request, in any field order, is answered with the kernel's response to it |
| `Worker.OthersRefused` | ocaml/worker/main.ml:33-64 | whatever is neither the greeting of this version nor a well-formed request is answered with a failure: another version or kind, a missing, repeated or further field, no object |
| `Worker.UnparsedRefused` | ocaml/worker/main.ml:66-68 | so is a payload that is no JSON text |
| `Worker.ReadExactly` | crates/rationale-protocol/src/worker.rs:292-305 | the host takes a value for a message exactly when it is that message, up to the order of fields |
| `Worker.HonestAnswer` | crates/rationale-protocol/src/worker.rs:292-305 | given texts that the other side parses as written, the host reads back readiness, respectively the kernel's response to that very request |
| `Supervisor.PartialFrame` | ocaml/worker/framing.ml:15-38 | the worker takes a frame only when all of it is there |
| `Supervisor.StepConverses` | ocaml/worker/main.ml:70-79 | a turn of the worker or a crash at any byte keeps the conversation's invariant |
| `Supervisor.ConversationOver` | crates/rationale-protocol/src/worker.rs:434-455 | once the announced bytes are read, the pipes are empty and what was read is the whole answer |
| `Supervisor.LateAnswer` | crates/rationale-protocol/src/worker.rs:534-550 | an answer left in the pipe would be read as the answer to the next request, which is why the worker is killed |
| `Supervisor.Child.Serve` | ocaml/worker/main.ml:70-79 | one turn of the worker process, a crash, or nothing yet |
| `Supervisor.Child.WriteAll` | crates/rationale-protocol/src/worker.rs:425-432 | everything is written, unless the worker is gone, or exactly when the deadline has passed |
| `Supervisor.Child.ReadExact` | crates/rationale-protocol/src/worker.rs:434-449 | exactly the bytes asked for, unless the worker is gone without having written them, or exactly when the deadline has passed |
| `Supervisor.Exchange` | crates/rationale-protocol/src/worker.rs:404-456 | only a completed exchange leaves the pipes idle, and then the message is the worker's answer to this message; it times out exactly when the deadline passed, crashes only with the worker gone, and each other failure has its stated cause |
| `Supervisor.BackoffBound` | crates/rationale-protocol/src/worker.rs:499-502 | the sleeps of all restarts add up to at most backoff * limit * (limit + 1) / 2 |
| `Supervisor.BackoffExact` | crates/rationale-protocol/src/worker.rs:499-502 | while no multiple of the backoff is too long for a duration they are one, two, three and so on times the backoff |
| `Supervisor.EachWait` | crates/rationale-protocol/src/worker.rs:499-502 | the wait before the n-th restart is n times the backoff, or the longest duration if that is longer |
| `Supervisor.WorkerSupervisor.StartWorker` | crates/rationale-protocol/src/worker.rs:314-402 | a started worker has negotiated the version and is published; any failure leaves no process published |
| `Supervisor.WorkerSupervisor.TakeTurn` | crates/rationale-protocol/src/worker.rs:493-552 | the worker survives a turn only if the exchange completed; size failures are not retried; a missed deadline, a crash and a failed start are each reported for what happened |
| `Supervisor.WorkerSupervisor.EvaluateWithRestart` | crates/rationale-protocol/src/worker.rs:486-554 | at most limit + 1 turns, the counter never leaves a byte, the exact total backoff, a retryable failure only after all restarts and for the cause of the last turn, and a synchronised supervisor at the end |
| `Supervisor.WorkerSupervisor.ServeCommand` | crates/rationale-protocol/src/worker.rs:476-480 | a caller that still listens receives the kernel's response to its own request or an operational failure |
| `Supervisor.WorkerSupervisor.Run` | crates/rationale-protocol/src/worker.rs:470-484 | so does every caller in every run, and at the end no worker is held |
| `Supervisor.Supervise` | crates/rationale-protocol/src/worker.rs:237-252 | from configuration to the end of the queue: exactly a payload bound of zero or beyond 32 bits, no timeout and no queue are refused as configuration, and every delivered answer is authentic |
| `Nesting.OpenLevelsSnoc` | crates/rationale-docs/src/lib.rs:534-555 | a further line closes exactly the open levels it does not exceed and opens its own |
| `Nesting.PushLine` | crates/rationale-docs/src/lib.rs:541-549 | after each content line the stack is strictly increasing and holds exactly the positive indentations that every later line exceeds |
| `Nesting.IndentationWithinLimit` | crates/rationale-docs/src/lib.rs:534-557 | accepted exactly when at no line more levels are open than the limit |
| `Nesting.DepthSnoc` | crates/rationale-docs/src/lib.rs:575-586 | the saturating counter is the greatest excess of openings over closings of any suffix |
| `Nesting.BracketsWithinLimit` | crates/rationale-docs/src/lib.rs:559-589 | accepted exactly when no stretch outside quotations opens more than the limit |
| `Nesting.ValidateStructuralNesting` | crates/rationale-docs/src/lib.rs:534-590 | accepted exactly when both hold |
| `Nesting.LinesEnd` | crates/rationale-docs/src/lib.rs:536 | a line ends at a newline, which a carriage return may precede |
| `Nesting.ContentMeaning` | crates/rationale-docs/src/lib.rs:537-541 | leading blanks and tabs are the indentation, and the rest is content unless it is nothing or begins with a number sign |
| `Nesting.NetMeaning` | crates/rationale-docs/src/lib.rs:574-588 | square brackets and braces count, opening for one and closing against one |
| `Nesting.QuotationsSkipped` | crates/rationale-docs/src/lib.rs:562-573 | what stands in single or double quotes is not looked at; in double quotes a backslash hides the next character, and a quotation that never ends reaches to the end |
| `Composition.AskWhy` | crates/rationale-engine/src/lib.rs:517-561 | slice, request and supervised evaluation in one call: an answer is the kernel's response to the request over the current snapshot, and a proof or a resource limit; a failure has its stated cause and the supervisor stays synchronised |

## Left out

- WhyLosesNothing: like `WhyLosesExactly` and `WhyAnswersTheSame`, it takes ids of stored edges to be collision-free names (`ReferencesNamed`); `FormedNames` derives that from how they are formed.
- Evaluate: integers are unbounded here and 63-bit in the kernel; only the protocol version is read as an integer from outside, and the host's reader checks it to be 16-bit.
- PublishEvidence: the hash that names a snapshot is a parameter, any function of the records, edges, conflicts, diagnostics and source states without their observation times; `SyncOutcomes` takes it to be collision-free. The report's counts are not modelled.
- Exchange: the host's serialiser is total here; the source's branch for a message that cannot be serialised has no counterpart. Deadlines may pass at any read or write, whatever their length.
- WorkerSupervisor: commands are a sequence served in order; the bounded queue's back-pressure, and callers that find the supervisor stopped, are not modelled. Nothing is said about how soon an answer comes. Between commands the published process id belongs to a held worker, which may have died since: the next exchange finds out.
- Loop: the texts of fatal messages on standard error are not modelled; of the texts of failure messages and of decoder refusals only what `StrictObjects` and `RefusedField` say is stated.
- CandidateSnapshot: the key of a conflict row is its whole content, so the source's content comparison for conflicts cannot fail and has no branch here.
- JSON text: the two parsers and printers are parameters, assumed only to agree on the messages that one side can send and the other can hold, whose protocol versions are 16-bit, up to the order of object fields (`Faithful`).
- HonestAnswer: rests on that assumption.
- ContentIdentifies: compares JSON trees where the source compares the texts printed from them.
- Strings: sequences of characters compared by code; UTF-8 validity and the distinction between bytes and characters inside JSON strings are not modelled.
- BLAKE3: hashes, and the truncated hashes of document ids, are names that differ for different material.
- SQLite: tables are maps and sets, a transaction is a private copy, statements either apply or report the constraint they violate; the file, write-ahead log, busy waiting, several connections, schema migration and damaged files are not modelled.
- Git: blame, history, status and path checks; resolved targets and commits are inputs.
- Documents: front matter, YAML, TOML and Markdown parsing and reference tokenising; ingested records, edges, conflicts and diagnostics are inputs.
- Forge client: HTTP, pagination, rate limits and authentication; a contribution is any list of records and edges.
- Surfaces: the command line, the MCP server, candidate ranking, benchmarks and scripts.
- Clocks: timestamps are parameters.
- Worker discovery: locating the executable, and the wording of operational failures.
