/** The supervised worker: one exchange at a time, bounded restarts, and a worker that is
    killed after every exchange that did not complete. Deadlines, crashes, cancelled callers
    and the worker's own pace are nondeterministic steps. */
module Supervisor {
  import opened Wrappers
  import opened Model
  import opened Framing
  import opened Evaluator
  import opened Worker

  const MAX_U32 := 0xffff_ffff

  /** The longest duration, in nanoseconds. */
  const MAX_DURATION := 0xffff_ffff_ffff_ffff * 1_000_000_000 + 999_999_999

  type U8 = n: int | 0 <= n < 256

  type Duration = n: int | 0 <= n <= MAX_DURATION

  datatype Config = Config(
    requestTimeout: Duration,
    maxPayload: nat,
    restartLimit: U8,
    restartBackoff: Duration,
    queueCapacity: nat)

  datatype Reason =
    | InvalidConfiguration
    | StartFailed
    | HandshakeFailed
    | TimedOut
    | Crashed
    | ProtocolViolation
    | PayloadTooLarge(length: nat, limit: nat)

  predicate ValidConfig(config: Config) {
    && 0 < config.maxPayload <= MAX_U32
    && config.requestTimeout != 0
    && config.queueCapacity != 0
  }

  // ----- the worker process and its pipes

  /** Bytes written by the host and not yet taken, bytes written by the worker and not yet
      read, and whether the process still runs. */
  datatype Pipes = Pipes(input: seq<Byte>, output: seq<Byte>, alive: bool)

  /** One turn of the worker's loop, cut short by a crash or not. */
  ghost predicate WorkerStep(texts: Texts, before: Pipes, after: Pipes) {
    var reading := FrameOf(before.input, MAX_FRAME_LENGTH);
    || after == before
    || (before.alive && after == before.(alive := false))
    || (&& before.alive
        && reading.result.Ok?
        && var reply := Process(texts, reading.result.value);
           && |reply| <= MAX_WRITE
           && after.input == reading.rest
           && before.output <= after.output <= before.output + Frame(reply)
           && (after.alive ==> after.output == before.output + Frame(reply)))
  }

  /** No request is waiting for the worker and no answer for the host. */
  ghost predicate Idle(pipes: Pipes) {
    pipes.output == [] && (pipes.alive ==> pipes.input == [])
  }

  /** In the middle of an exchange: `sent` of the request's frame is written and `taken` of
      the answer's frame is read. */
  ghost predicate Conversing(texts: Texts, pipes: Pipes, payload: seq<Byte>, sent: seq<Byte>, taken: seq<Byte>) {
    var reply := Process(texts, payload);
    var answered := taken + pipes.output;
    && sent <= Frame(payload)
    && answered <= Frame(reply)
    && (answered != [] ==> |reply| <= MAX_WRITE)
    && (pipes.alive ==>
          || (pipes.input == sent && answered == [])
          || (pipes.input == [] && sent == Frame(payload) && answered == Frame(reply)))
  }

  /** The worker takes a frame only when it is complete. */
  lemma PartialFrame(payload: seq<Byte>, sent: seq<Byte>)
    requires |payload| <= MAX_U32 && sent <= Frame(payload)
    requires FrameOf(sent, MAX_FRAME_LENGTH).result.Ok?
    ensures sent == Frame(payload) && FrameOf(sent, MAX_FRAME_LENGTH) == Reading(Ok(payload), [])
  {
    var tail := sent[4..];
    assert sent == Header(|payload|) + tail by {
      assert sent[..4] == Frame(payload)[..4] == Header(|payload|);
    }
    HeaderThenRest(|payload|, tail);
    assert |tail| == |payload|;
    assert sent == Frame(payload);
    assert tail == payload && tail[..|payload|] == payload;
  }

  lemma StepConverses(
    texts: Texts, before: Pipes, after: Pipes, payload: seq<Byte>, sent: seq<Byte>, taken: seq<Byte>)
    requires |payload| <= MAX_U32
    requires Conversing(texts, before, payload, sent, taken)
    requires WorkerStep(texts, before, after)
    ensures Conversing(texts, after, payload, sent, taken)
  {
    if after != before && after != before.(alive := false) {
      assert before.input == sent;
      PartialFrame(payload, sent);
      assert taken == [] && before.output == [];
      var reply := Frame(Process(texts, payload));
      assert taken + after.output == after.output && before.output + reply == reply;
    }
  }

  /** Once the whole answer is read the pipes are idle again, and what was read is the answer. */
  lemma ConversationOver(
    texts: Texts, pipes: Pipes, payload: seq<Byte>, sent: seq<Byte>, header: seq<Byte>, body: seq<Byte>)
    requires Conversing(texts, pipes, payload, sent, header + body)
    requires |header| == 4 && |Process(texts, payload)| < 0x1_0000_0000
    requires |body| == HeaderValue(header[0], header[1], header[2], header[3])
    ensures Idle(pipes) && body == Process(texts, payload)
  {
    var reply := Process(texts, payload);
    HeaderTaken(texts, pipes, payload, sent, header, body);
    assert header + body + pipes.output <= Header(|reply|) + reply;
    assert |header + body| == |Frame(reply)|;
    assert header + body == Frame(reply);
    assert body == (header + body)[4..] == reply;
  }

  /** The first four bytes read announce the answer's length. */
  lemma HeaderTaken(
    texts: Texts, pipes: Pipes, payload: seq<Byte>, sent: seq<Byte>, header: seq<Byte>, body: seq<Byte>)
    requires Conversing(texts, pipes, payload, sent, header + body)
    requires |header| == 4
    ensures |Process(texts, payload)| <= MAX_WRITE
    ensures HeaderValue(header[0], header[1], header[2], header[3]) == |Process(texts, payload)|
  {
    var reply := Process(texts, payload);
    var answered := header + body + pipes.output;
    assert answered != [];
    assert header == answered[..4] == Frame(reply)[..4] == Header(|reply|);
    HeaderRoundTrip(|reply|);
  }

  /** Why a worker is killed after an unfinished exchange: an answer left in the pipe would be
      read, whole and well formed, as the answer to whatever is asked next. */
  lemma LateAnswer(texts: Texts, pipes: Pipes, earlier: HostMessage)
    requires Faithful(texts) && earlier.Evaluate? && HostCanSend(earlier)
    requires pipes.output == Frame(Process(texts, texts.hostWrite(earlier)))
    requires |pipes.output| <= MAX_WRITE
    ensures var header := pipes.output[..4];
            HeaderValue(header[0], header[1], header[2], header[3]) == |pipes.output| - 4
    ensures var parsed := texts.hostParse(pipes.output[4..]);
            parsed.Some? && ReadWorkerMessage(parsed.value) == Some(Result(Evaluation(earlier.request)))
  {
    var reply := Process(texts, texts.hostWrite(earlier));
    assert pipes.output[..4] == Header(|reply|) && pipes.output[4..] == reply;
    HeaderRoundTrip(|reply|);
    HonestAnswer(texts, earlier);
  }

  datatype Io = Done | Broken | Deadline

  class Child {
    const texts: Texts
    const pid: nat
    var pipes: Pipes
    /** Time since the exchange began. */
    var elapsed: nat

    /** A process just spawned, with empty pipes. */
    constructor (texts: Texts, pid: nat)
      requires pid != 0
      ensures this.texts == texts && this.pid == pid
      ensures Idle(pipes) && pipes.alive
    {
      this.texts := texts;
      this.pid := pid;
      pipes := Pipes([], [], true);
      elapsed := 0;
    }

    /** A turn of the worker's loop, or a crash, or nothing yet. */
    method Serve()
      modifies this`pipes
      ensures WorkerStep(texts, old(pipes), pipes)
    {
      var idle, crash := *, *;
      if !pipes.alive || idle {
        return;
      }
      var reading := FrameOf(pipes.input, MAX_FRAME_LENGTH);
      if crash || (reading.result.Err? && reading.result.error.FrameTooLarge?) {
        pipes := pipes.(alive := false);
        return;
      }
      if reading.result.Ok? {
        var reply := Process(texts, reading.result.value);
        if |reply| > MAX_WRITE {
          pipes := pipes.(alive := false);
          return;
        }
        var written: nat :| true;
        if written < |Frame(reply)| {
          pipes := Pipes(reading.rest, pipes.output + Frame(reply)[..written], false);
        } else {
          pipes := Pipes(reading.rest, pipes.output + Frame(reply), true);
        }
      }
    }

    /** The worker runs for a while. */
    method Run(ghost payload: seq<Byte>, ghost sent: seq<Byte>, ghost taken: seq<Byte>)
      requires |payload| <= MAX_U32 && Conversing(texts, pipes, payload, sent, taken)
      modifies this`pipes
      ensures Conversing(texts, pipes, payload, sent, taken)
    {
      var turns: nat :| true;
      for i := 0 to turns
        invariant Conversing(texts, pipes, payload, sent, taken)
      {
        ghost var before := pipes;
        Serve();
        StepConverses(texts, before, pipes, payload, sent, taken);
      }
    }

    method PassTime()
      modifies this`elapsed
      ensures elapsed >= old(elapsed)
    {
      var duration: nat :| true;
      elapsed := elapsed + duration;
    }

    /** Writes everything, unless the deadline passes or the worker is gone midway. */
    method WriteAll(bytes: seq<Byte>, timeout: Duration, ghost payload: seq<Byte>, ghost sent: seq<Byte>)
      returns (io: Io)
      requires |payload| <= MAX_U32 && Conversing(texts, pipes, payload, sent, [])
      requires sent + bytes <= Frame(payload)
      modifies this
      ensures io.Done? ==> Conversing(texts, pipes, payload, sent + bytes, [])
      ensures io.Broken? ==> !pipes.alive
      ensures io.Deadline? <==> elapsed >= timeout
    {
      Run(payload, sent, []);
      PassTime();
      var noticed, part := *, *;
      if elapsed >= timeout || (!pipes.alive && noticed) {
        if 0 <= part <= |bytes| {
          pipes := pipes.(input := pipes.input + bytes[..part]);
        }
        return if elapsed >= timeout then Deadline else Broken;
      }
      pipes := pipes.(input := pipes.input + bytes);
      assert bytes != [] ==> sent != Frame(payload);
      assert sent + [] == sent && pipes.input + [] == pipes.input;
      io := Done;
    }

    /** Reads exactly `count` bytes, unless the deadline passes first or the worker is gone without
        having written them. A worker that lives is waited for until the deadline. */
    method ReadExact(
      count: nat, timeout: Duration, ghost payload: seq<Byte>, ghost sent: seq<Byte>, ghost taken: seq<Byte>)
      returns (io: Io, bytes: seq<Byte>)
      requires |payload| <= MAX_U32 && Conversing(texts, pipes, payload, sent, taken)
      modifies this
      ensures io.Done? ==> |bytes| == count && Conversing(texts, pipes, payload, sent, taken + bytes)
      ensures io.Broken? ==> !pipes.alive && |pipes.output| < count
      ensures io.Deadline? <==> elapsed >= timeout
    {
      Run(payload, sent, taken);
      PassTime();
      if elapsed < timeout && |pipes.output| < count && pipes.alive {
        elapsed := timeout;
      }
      if elapsed >= timeout {
        return Deadline, [];
      }
      if |pipes.output| < count {
        return Broken, [];
      }
      bytes := pipes.output[..count];
      assert taken + pipes.output == taken + bytes + pipes.output[count..];
      pipes := pipes.(output := pipes.output[count..]);
      io := Done;
    }

    method Kill()
      modifies this`pipes
      ensures !pipes.alive
    {
      pipes := pipes.(alive := false);
    }
  }

  // ----- one exchange

  datatype Exchanged = Replied(message: WorkerMessage) | Failed(reason: Reason)

  /** One frame out, one frame in. Only a completed exchange leaves the pipes idle, and then
      the message is the worker's answer to this very message. It times out exactly when the
      deadline passes, and crashes only when the worker is gone. */
  method Exchange(worker: Child, message: HostMessage, maxPayload: nat, timeout: Duration)
    returns (r: Exchanged)
    requires maxPayload <= MAX_U32 && timeout > 0
    requires Idle(worker.pipes)
    modifies worker
    ensures r.Replied? ==> Idle(worker.pipes) && Answer(worker.texts, message) == Some(r.message)
    ensures r.Failed? ==>
              r.reason.TimedOut? || r.reason.Crashed? || r.reason.ProtocolViolation? || r.reason.PayloadTooLarge?
    ensures r == Failed(TimedOut) <==> worker.elapsed >= timeout
    ensures r == Failed(Crashed) ==> !worker.pipes.alive
    ensures r == Failed(ProtocolViolation) ==> Answer(worker.texts, message).None?
    ensures r.Failed? && r.reason.PayloadTooLarge? ==>
              && r.reason.limit == maxPayload < r.reason.length
              && (|| r.reason.length == |worker.texts.hostWrite(message)|
                  || r.reason.length == |Process(worker.texts, worker.texts.hostWrite(message))|)
  {
    var texts := worker.texts;
    worker.elapsed := 0;
    var payload := texts.hostWrite(message);
    if |payload| > maxPayload {
      return Failed(PayloadTooLarge(|payload|, maxPayload));
    }
    var header := Header(|payload|);
    assert [] + header == header && header <= Frame(payload);
    var io := worker.WriteAll(header, timeout, payload, []);
    if !io.Done? {
      return Failed(Undone(io));
    }
    ghost var sent := Frame(payload);
    io := worker.WriteAll(payload, timeout, payload, header);
    if !io.Done? {
      return Failed(Undone(io));
    }

    var lengthBytes: seq<Byte>;
    io, lengthBytes := worker.ReadExact(4, timeout, payload, sent, []);
    if !io.Done? {
      return Failed(Undone(io));
    }
    assert [] + lengthBytes == lengthBytes + [];
    HeaderTaken(texts, worker.pipes, payload, sent, lengthBytes, []);
    var length := CheckedLength(lengthBytes, maxPayload);
    if length.Err? {
      return Failed(PayloadTooLarge(length.error.length, length.error.limit));
    }
    var response: seq<Byte>;
    io, response := worker.ReadExact(length.value, timeout, payload, sent, lengthBytes);
    if !io.Done? {
      return Failed(Undone(io));
    }
    ConversationOver(texts, worker.pipes, payload, sent, lengthBytes, response);
    var parsed := texts.hostParse(response);
    if parsed.None? {
      return Failed(ProtocolViolation);
    }
    var read := ReadWorkerMessage(parsed.value);
    if read.None? {
      return Failed(ProtocolViolation);
    }
    r := Replied(read.value);
  }

  function Undone(io: Io): Reason {
    if io.Broken? then Crashed else TimedOut
  }

  // ----- bounded restarts

  /** Duration::saturating_mul */
  function SaturatingMul(duration: Duration, times: nat): Duration {
    if duration * times > MAX_DURATION then MAX_DURATION else duration * times
  }

  /** The time slept before `attempts` restarts. */
  function Slept(backoff: Duration, attempts: nat): nat {
    if attempts == 0 then 0 else Slept(backoff, attempts - 1) + SaturatingMul(backoff, attempts)
  }

  /** The wait before the n-th restart is n times the backoff, or the longest duration there is if
      that is longer. */
  lemma EachWait(backoff: Duration, n: nat)
    requires n > 0
    ensures var wait := Slept(backoff, n) - Slept(backoff, n - 1);
            var longest := 18_446_744_073_709_551_615 * 1_000_000_000 + 999_999_999;
            if backoff * n > longest then wait == longest else wait == backoff * n
  {
  }

  lemma Scaled(factor: int, a: int, b: int)
    ensures factor * (a + 2 * b) == factor * a + 2 * (factor * b)
  {
  }

  lemma {:induction false} SleptAtMost(backoff: Duration, attempts: nat)
    ensures 2 * Slept(backoff, attempts) <= backoff * (attempts * (attempts + 1))
  {
    if attempts > 0 {
      SleptAtMost(backoff, attempts - 1);
      assert attempts * (attempts + 1) == (attempts - 1) * attempts + 2 * attempts;
      Scaled(backoff, (attempts - 1) * attempts, attempts);
    }
  }

  lemma ShorterWaits(backoff: Duration, attempts: nat)
    requires attempts > 0 && backoff * (attempts + 1) <= MAX_DURATION
    ensures backoff * attempts <= MAX_DURATION
  {
  }

  /** While no multiple of the backoff is too long for a duration, the sleeps are one, two, three
      and so on times the backoff. */
  lemma {:induction false} BackoffExact(backoff: Duration, attempts: nat)
    ensures backoff * (attempts + 1) <= MAX_DURATION ==>
              2 * Slept(backoff, attempts) == backoff * (attempts * (attempts + 1))
  {
    if attempts > 0 && backoff * (attempts + 1) <= MAX_DURATION {
      ShorterWaits(backoff, attempts);
      BackoffExact(backoff, attempts - 1);
      assert attempts * (attempts + 1) == (attempts - 1) * attempts + 2 * attempts;
      Scaled(backoff, (attempts - 1) * attempts, attempts);
    }
  }

  lemma ScaleMonotone(factor: nat, x: nat, y: nat)
    requires x <= y
    ensures factor * x <= factor * y
  {
  }

  lemma ProductMonotone(a: nat, m: nat, n: nat)
    requires m <= n
    ensures a * (m * (m + 1)) <= a * (n * (n + 1))
  {
    var x, y := m * (m + 1), n * (n + 1);
    assert x <= y by {
      ScaleMonotone(m, m + 1, n + 1);
      ScaleMonotone(n + 1, m, n);
    }
    ScaleMonotone(a, x, y);
  }

  /** However many restarts the limit allows, the backoff adds up to at most
      backoff * limit * (limit + 1) / 2. */
  lemma BackoffBound(backoff: Duration, attempts: nat, limit: U8)
    requires attempts <= limit
    ensures 2 * Slept(backoff, attempts) <= backoff * (limit * (limit + 1))
  {
    SleptAtMost(backoff, attempts);
    ProductMonotone(backoff, attempts, limit);
  }

  /** A result the supervisor may hand out for a request: the worker's answer to it, or a
      failure; a protocol violation only when the worker does not answer with a response, a
      size failure only when the request or its answer exceeds the bound. */
  ghost predicate Justified(texts: Texts, config: Config, request: Request, result: Wrappers.Result<Response, Reason>) {
    var answer := Answer(texts, Evaluate(request));
    match result
    case Ok(response) => answer == Some(Result(response))
    case Err(reason) =>
      && (reason.ProtocolViolation? ==> answer.None? || !answer.value.Result?)
      && (reason.PayloadTooLarge? ==> Oversized(texts, config, request))
  }

  ghost predicate Oversized(texts: Texts, config: Config, request: Request) {
    var payload := texts.hostWrite(Evaluate(request));
    |payload| > config.maxPayload || |Process(texts, payload)| > config.maxPayload
  }

  /** What a caller may be told: the kernel's response to its own request, or an operational
      failure; with a faithful wire never a protocol violation, and a size failure only when
      the request or its answer exceeds the bound. */
  ghost predicate Authentic(texts: Texts, config: Config, request: Request, result: Wrappers.Result<Response, Reason>) {
    match result
    case Ok(response) => response == Evaluation(request)
    case Err(reason) =>
      reason != ProtocolViolation && (reason.PayloadTooLarge? ==> Oversized(texts, config, request))
  }

  lemma JustifiedIsAuthentic(texts: Texts, config: Config, request: Request, result: Wrappers.Result<Response, Reason>)
    requires Faithful(texts) && IsU16(request.protocolVersion) && Justified(texts, config, request, result)
    ensures Authentic(texts, config, request, result)
  {
    HonestAnswer(texts, Evaluate(request));
  }

  /** What a caller receives, unless it has gone away. */
  type Answered = Option<Wrappers.Result<Response, Reason>>

  ghost predicate Delivers(texts: Texts, config: Config, request: Request, answer: Answered) {
    answer.Some? ==> Authentic(texts, config, request, answer.value)
  }

  ghost predicate AllDeliver(texts: Texts, config: Config, commands: seq<Request>, answers: seq<Answered>) {
    && |answers| == |commands|
    && forall i :: 0 <= i < |commands| ==> Delivers(texts, config, commands[i], answers[i])
  }

  lemma DeliverNext(
    texts: Texts, config: Config, commands: seq<Request>, i: nat, answers: seq<Answered>, answer: Answered)
    requires i < |commands| && AllDeliver(texts, config, commands[..i], answers)
    requires Delivers(texts, config, commands[i], answer)
    ensures AllDeliver(texts, config, commands[..i + 1], answers + [answer])
  {
    var before, after := commands[..i], commands[..i + 1];
    forall k | 0 <= k < i + 1
      ensures Delivers(texts, config, after[k], (answers + [answer])[k])
    {
      if k < i {
        assert after[k] == before[k];
        assert Delivers(texts, config, before[k], answers[k]);
      }
    }
  }

  /** How one turn of the restart loop ends: with a result for the caller, or with the worker
      gone and a failure that a restart may cure. */
  datatype Turn = Settled(result: Wrappers.Result<Response, Reason>) | Restartable(reason: Reason)

  /** How the last exchange of a command ended, if there was one. */
  datatype Cause = NotStarted | Exchanged(elapsed: nat, alive: bool)

  /** A missed deadline is reported when the deadline was missed, a crash when the worker was
      gone before it, and a failed start when no exchange began. */
  ghost predicate CausedBy(config: Config, reason: Reason, cause: Cause) {
    && (reason.TimedOut? ==> cause.Exchanged? && cause.elapsed >= config.requestTimeout)
    && (reason.Crashed? ==> cause.Exchanged? && !cause.alive && cause.elapsed < config.requestTimeout)
    && (reason.StartFailed? || reason.HandshakeFailed? ==> cause == NotStarted)
  }

  class WorkerSupervisor {
    const texts: Texts
    const config: Config
    var worker: Child?
    /** The published process id; zero when there is none. */
    var processId: nat

    constructor (texts: Texts, config: Config)
      ensures this.texts == texts && this.config == config
      ensures worker == null && processId == 0
    {
      this.texts := texts;
      this.config := config;
      worker := null;
      processId := 0;
    }

    /** Between commands: the published id is non-zero exactly when a worker is held, and then
        names it, and that worker's pipes hold nothing of an earlier exchange. */
    ghost predicate Synchronised()
      reads this, worker
    {
      && (worker == null <==> processId == 0)
      && (worker != null ==> worker.texts == texts && worker.pid == processId && Idle(worker.pipes))
    }

    method Terminate(child: Child)
      modifies child, this`processId
      ensures !child.pipes.alive && processId == 0
    {
      child.Kill();
      processId := 0;
    }

    /** Spawns a worker and negotiates the protocol version. */
    method StartWorker() returns (r: Wrappers.Result<Child, Reason>)
      requires ValidConfig(config) && processId == 0
      modifies this`processId
      ensures r.Ok? ==>
                && fresh(r.value) && r.value.texts == texts && Idle(r.value.pipes)
                && processId == r.value.pid != 0
      ensures r.Err? ==> processId == 0 && (r.error.StartFailed? || r.error.HandshakeFailed?)
      ensures r.Ok? ==> Answer(texts, Hello) == Some(Ready(1))
    {
      var spawned := *;
      if !spawned {
        return Err(StartFailed);
      }
      var earlier: nat :| true;
      var pid := earlier + 1;
      var child := new Child(texts, pid);
      processId := pid;
      var handshake := Exchange(child, Hello, config.maxPayload, config.requestTimeout);
      match handshake
      case Replied(Ready(version)) =>
        if version == 1 {
          return Ok(child);
        }
        Terminate(child);
        return Err(HandshakeFailed);
      case _ =>
        Terminate(child);
        return Err(HandshakeFailed);
    }

    /** One turn: starts a worker if none is held, then one exchange. The worker survives only
        an exchange that completed. */
    method TakeTurn(request: Request) returns (turn: Turn, ghost cause: Cause)
      requires ValidConfig(config) && Synchronised()
      modifies this, worker
      ensures Synchronised()
      ensures worker == null || worker == old(worker) || fresh(worker)
      ensures turn.Settled? ==> Justified(texts, config, request, turn.result)
      ensures turn.Settled? && turn.result.Err? ==>
                turn.result.error.ProtocolViolation? || turn.result.error.PayloadTooLarge?
      ensures turn.Restartable? ==>
                && worker == null && !turn.reason.PayloadTooLarge?
                && Justified(texts, config, request, Err(turn.reason))
                && CausedBy(config, turn.reason, cause)
    {
      cause := NotStarted;
      if worker == null {
        var started := StartWorker();
        if started.Err? {
          return Restartable(started.error), cause;
        }
        worker := started.value;
      }
      var exchanged := Exchange(worker, Evaluate(request), config.maxPayload, config.requestTimeout);
      cause := Exchanged(worker.elapsed, worker.pipes.alive);
      match exchanged
      case Replied(Result(response)) =>
        return Settled(Ok(response)), cause;
      case Replied(_) =>
        return Settled(Err(ProtocolViolation)), cause;
      case Failed(reason) =>
        Terminate(worker);
        worker := null;
        return if reason.PayloadTooLarge? then Settled(Err(reason)) else Restartable(reason), cause;
    }

    /** Answers one command, restarting the worker at most `restartLimit` times. */
    method EvaluateWithRestart(request: Request)
      returns (r: Wrappers.Result<Response, Reason>, ghost iterations: nat, ghost slept: nat, ghost cause: Cause)
      requires ValidConfig(config) && Synchronised()
      modifies this, worker
      ensures Synchronised()
      ensures worker == null || worker == old(worker) || fresh(worker)
      ensures Justified(texts, config, request, r)
      ensures 1 <= iterations <= config.restartLimit + 1
      ensures r.Err? ==> CausedBy(config, r.error, cause)
      ensures r.Err? && (r.error.StartFailed? || r.error.HandshakeFailed? || r.error.TimedOut? || r.error.Crashed?) ==>
                iterations == config.restartLimit + 1
      ensures slept == Slept(config.restartBackoff, iterations - 1)
      ensures config.restartBackoff * iterations <= MAX_DURATION ==>
                2 * slept == config.restartBackoff * ((iterations - 1) * iterations)
      ensures 2 * slept <= config.restartBackoff * (config.restartLimit * (config.restartLimit + 1))
    {
      var attempt: U8 := 0;
      slept := 0;
      while true
        invariant Synchronised()
        invariant worker == null || worker == old(worker) || fresh(worker)
        invariant attempt <= config.restartLimit
        invariant slept == Slept(config.restartBackoff, attempt)
        decreases config.restartLimit - attempt
      {
        iterations := attempt + 1;
        var turn, ended := TakeTurn(request);
        if turn.Settled? || attempt >= config.restartLimit {
          BackoffBound(config.restartBackoff, attempt, config.restartLimit);
          BackoffExact(config.restartBackoff, attempt);
          return if turn.Settled? then turn.result else Err(turn.reason), iterations, slept, ended;
        }
        attempt := attempt + 1;
        slept := slept + SaturatingMul(config.restartBackoff, attempt);
      }
    }

    /** Runs one command. Its caller may have gone away; the answer is then dropped. */
    method ServeCommand(request: Request) returns (answer: Answered)
      requires Faithful(texts) && ValidConfig(config) && Synchronised() && IsU16(request.protocolVersion)
      modifies this, worker
      ensures Synchronised()
      ensures worker == null || worker == old(worker) || fresh(worker)
      ensures Delivers(texts, config, request, answer)
    {
      var result, _, _, _ := EvaluateWithRestart(request);
      JustifiedIsAuthentic(texts, config, request, result);
      var cancelled := *;
      answer := if cancelled then None else Some(result);
    }

    /** Serves the queue in order, and stops the worker when the queue is closed. */
    method Run(commands: seq<Request>) returns (answers: seq<Answered>)
      requires Faithful(texts) && ValidConfig(config) && Synchronised()
      requires forall c :: c in commands ==> IsU16(c.protocolVersion)
      modifies this, worker
      ensures AllDeliver(texts, config, commands, answers)
      ensures worker == null && processId == 0
    {
      answers := [];
      for i := 0 to |commands|
        invariant Synchronised()
        invariant worker == null || worker == old(worker) || fresh(worker)
        invariant AllDeliver(texts, config, commands[..i], answers)
      {
        var answer := ServeCommand(commands[i]);
        DeliverNext(texts, config, commands, i, answers, answer);
        answers := answers + [answer];
      }
      assert commands[..|commands|] == commands;
      if worker != null {
        Terminate(worker);
        worker := null;
      }
    }
  }

  /** Starting with the first worker ready, then the queue. */
  method Supervise(texts: Texts, config: Config, commands: seq<Request>)
    returns (r: Wrappers.Result<seq<Answered>, Reason>)
    requires Faithful(texts) && forall c :: c in commands ==> IsU16(c.protocolVersion)
    ensures r == Err(InvalidConfiguration) <==>
            || config.maxPayload == 0 || config.maxPayload > 0xffff_ffff
            || config.requestTimeout == 0 || config.queueCapacity == 0
    ensures ValidConfig(config) && r.Err? ==> r.error.StartFailed? || r.error.HandshakeFailed?
    ensures r.Ok? ==> AllDeliver(texts, config, commands, r.value)
  {
    if !ValidConfig(config) {
      return Err(InvalidConfiguration);
    }
    var supervisor := new WorkerSupervisor(texts, config);
    var started := supervisor.StartWorker();
    if started.Err? {
      return Err(started.error);
    }
    supervisor.worker := started.value;
    var answers := supervisor.Run(commands);
    r := Ok(answers);
  }
}
