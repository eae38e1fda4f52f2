/** The whole question: evidence published by any history of the store, the request `why`
    asks over it, and the answer that comes back through the supervised worker. */
module Composition {
  import opened Wrappers
  import opened Model
  import opened Evaluator
  import opened Tables
  import opened Runs
  import opened Reachable
  import opened Store
  import opened Why
  import opened Targets
  import opened Worker
  import opened Supervisor

  datatype Failed = NotAsked(error: WhyError) | Unavailable(reason: Reason)

  lemma CurrentRequestVersion(db: Database, target: Target, query: string)
    requires CurrentRequest(db, target, query).Some?
    ensures CurrentRequest(db, target, query).value.protocolVersion == 1
  {
  }

  /** An answer is the kernel's response to the request over the current snapshot, and it is a
      proof or a resource limit; a failure has its stated cause. */
  ghost predicate WhyOutcome(
    db: Database, texts: Texts, config: Config, target: Target, query: string, r: Result<Response, Failed>)
  {
    match r
    case Ok(response) =>
      && CurrentRequest(db, target, query).Some?
      && response == Evaluation(CurrentRequest(db, target, query).value)
      && (response.ProofResponse? || response.error.code == ResourceLimit)
    case Err(NotAsked(NoSnapshot)) => db.current.None?
    case Err(NotAsked(StoreFailed(error))) =>
      ProofSlice(db, ProofSeedIds(target), Limits(4_000, 16_384, 4_096)) == Err(error)
    case Err(Unavailable(reason)) =>
      && CurrentRequest(db, target, query).Some?
      && Authentic(texts, config, CurrentRequest(db, target, query).value, Err(reason))
  }

  /** How the supervisor's result is passed on. */
  function PassedOn(answered: Result<Response, Reason>): Result<Response, Failed> {
    match answered
    case Ok(response) => Ok(response)
    case Err(reason) => Err(Unavailable(reason))
  }

  lemma AuthenticOutcome(
    db: Database, texts: Texts, config: Config, target: Target, query: string, request: Request,
    answered: Result<Response, Reason>)
    requires CommittedValid(db) && CurrentRequest(db, target, query) == Some(request)
    requires Authentic(texts, config, request, answered)
    ensures WhyOutcome(db, texts, config, target, query, PassedOn(answered))
  {
    CurrentIsAnswered(db, target, query);
  }

  /** Has the request evaluated: an answer is the kernel's response to it. */
  method AskWorker(supervisor: WorkerSupervisor, request: Request) returns (r: Result<Response, Reason>)
    requires Faithful(supervisor.texts) && ValidConfig(supervisor.config) && supervisor.Synchronised()
    requires IsU16(request.protocolVersion)
    modifies supervisor, supervisor.worker
    ensures supervisor.Synchronised()
    ensures Authentic(supervisor.texts, supervisor.config, request, r)
  {
    var answered, _, _, _ := supervisor.EvaluateWithRestart(request);
    JustifiedIsAuthentic(supervisor.texts, supervisor.config, request, answered);
    r := answered;
  }

  /** Loads the slice, builds the request and has it evaluated. Whatever calls the store has
      seen and whatever the worker's crashes and deadlines, an answer is the kernel's response to
      the request over the current snapshot, and it is a proof or a resource limit: never a
      missing record and never an invalid request. A failure has its stated cause. */
  method AskWhy(store: EvidenceStore, supervisor: WorkerSupervisor, target: Target, query: string)
    returns (r: Result<Response, Failed>)
    requires CommittedValid(store.committed)
    requires Faithful(supervisor.texts) && ValidConfig(supervisor.config) && supervisor.Synchronised()
    modifies supervisor, supervisor.worker
    ensures supervisor.Synchronised()
    ensures store.committed == old(store.committed)
    ensures WhyOutcome(store.committed, supervisor.texts, supervisor.config, target, query, r)
  {
    var prepared := PrepareRequest(store, target, query);
    if prepared.Err? {
      return Err(NotAsked(prepared.error));
    }
    var request := prepared.value;
    CurrentRequestVersion(store.committed, target, query);
    var answered := AskWorker(supervisor, request);
    AuthenticOutcome(store.committed, supervisor.texts, supervisor.config, target, query, request, answered);
    r := PassedOn(answered);
  }
}
