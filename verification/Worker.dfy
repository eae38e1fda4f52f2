/** The proof worker: one response frame for every request frame. */
module Worker {
  import opened Wrappers
  import opened Sequences
  import opened Ordering
  import opened Model
  import opened Json
  import opened Codec
  import opened Protocol
  import opened Framing
  import opened Evaluator

  const MAX_FRAME_LENGTH := 8 * 1024 * 1024

  // ----- messages

  datatype HostMessage = Hello | Evaluate(request: Request)

  datatype WorkerMessage = Ready(protocolVersion: nat) | Result(response: Response) | Failure(message: string)

  function WorkerValue(message: WorkerMessage): Value {
    match message
    case Ready(version) => Assoc([Field("kind", String("ready")), Field("protocol_version", Int(version))])
    case Result(response) => Assoc([Field("kind", String("result")), Field("response", EncodeResponse(response))])
    case Failure(text) => Assoc([Field("kind", String("failure")), Field("message", String(text))])
  }

  function Fail(text: string): Value {
    WorkerValue(Failure(text))
  }

  predicate ExactFields(expected: seq<string>, fields: seq<Field>) {
    Sort(StringLess, KeysOf(fields)) == Sort(StringLess, expected)
  }

  function HandleHello(fields: seq<Field>): Value {
    if !ExactFields(["kind", "protocol_version"], fields) then Fail("worker message has invalid fields")
    else
      match AssocOpt("protocol_version", fields)
      case None => Fail("worker message is missing protocol_version")
      case Some(version) =>
        if !version.Int? then Fail("protocol_version must be an integer")
        else if version.n == 1 then WorkerValue(Ready(1))
        else Fail("unsupported worker protocol version")
  }

  function HandleEvaluate(fields: seq<Field>): Value {
    if !ExactFields(["kind", "request"], fields) then Fail("worker message has invalid fields")
    else
      match AssocOpt("request", fields)
      case None => Fail("worker message is missing request")
      case Some(request) =>
        match DecodeRequest(request)
        case Err(refusal) => Fail(Message(refusal))
        case Ok(decoded) => WorkerValue(Result(Evaluation(decoded)))
  }

  /** The message answered to a message. */
  function Handle(j: Value): Value {
    match j
    case Assoc(fields) =>
      (match AssocOpt("kind", fields)
       case None => Fail("worker message is missing kind")
       case Some(kind) =>
         if !kind.String? then Fail("kind must be a string")
         else if kind.s == "hello" then HandleHello(fields)
         else if kind.s == "evaluate" then HandleEvaluate(fields)
         else Fail("unknown worker message kind"))
    case _ => Fail("worker message must be a JSON object")
  }

  // ----- JSON texts

  /** The JSON text libraries of both sides, which this model does not open: the kernel's
      parser (an error message, or a value) and printer, the host's serialiser for its messages and
      its parser. */
  datatype Texts = Texts(
    parse: seq<Byte> -> Wrappers.Result<Value, string>,
    render: Value -> seq<Byte>,
    hostWrite: HostMessage -> seq<Byte>,
    hostParse: seq<Byte> -> Option<Value>)

  /** What a host message says. */
  function HostEntries(message: HostMessage): seq<Entry> {
    match message
    case Hello => [Entry("kind", Some(String("hello"))), Entry("protocol_version", Some(Int(1)))]
    case Evaluate(request) =>
      [Entry("kind", Some(String("evaluate"))), Entry("request", Some(EncodeRequest(request)))]
  }

  predicate IsU16(n: int) {
    0 <= n < 0x1_0000
  }

  /** The messages the host's types can hold: protocol versions are 16-bit. */
  predicate HostCanSend(message: HostMessage) {
    message.Evaluate? ==> 0 <= message.request.protocolVersion < 65_536
  }

  predicate HostCanHold(message: WorkerMessage) {
    match message
    case Ready(version) => version < 65_536
    case Result(response) => 0 <= response.protocolVersion < 65_536
    case Failure(_) => true
  }

  /** What one side writes the other side parses, up to the order of object fields, for the
      messages that are exchanged. */
  ghost predicate Faithful(texts: Texts) {
    && (forall message :: HostCanSend(message) ==>
          var parsed := texts.parse(texts.hostWrite(message));
          parsed.Ok? && Canonical(parsed.value) == Object(HostEntries(message)))
    && (forall message :: HostCanHold(message) ==>
          var parsed := texts.hostParse(texts.render(WorkerValue(message)));
          parsed.Some? && Canonical(parsed.value) == Canonical(WorkerValue(message)))
  }

  /** The bytes answered to a payload. */
  function Process(texts: Texts, payload: seq<Byte>): seq<Byte> {
    texts.render(
      match texts.parse(payload)
      case Ok(j) => Handle(j)
      case Err(message) => Fail("invalid worker JSON: " + message))
  }

  // ----- the loop

  datatype Stop = InputEnded(error: ReadError) | OutputRefused

  /** What the loop writes for the bytes it reads, and why it stops. */
  function Served(texts: Texts, input: seq<Byte>): (seq<Byte>, Stop)
    decreases |input|
  {
    var reading := FrameOf(input, MAX_FRAME_LENGTH);
    match reading.result
    case Err(error) => ([], InputEnded(error))
    case Ok(payload) =>
      var reply := Process(texts, payload);
      if |reply| > MAX_WRITE then ([], OutputRefused)
      else
        FrameShrinks(input, MAX_FRAME_LENGTH);
        var later := Served(texts, reading.rest);
        (Frame(reply) + later.0, later.1)
  }

  method Loop(texts: Texts, stdin: InChannel, stdout: OutChannel) returns (stop: Stop)
    modifies stdin, stdout
    ensures stop == Served(texts, old(stdin.rest)).1
    ensures stdout.written == old(stdout.written) + Served(texts, old(stdin.rest)).0
  {
    while true
      invariant stdout.written + Served(texts, stdin.rest).0
                == old(stdout.written) + Served(texts, old(stdin.rest)).0
      invariant Served(texts, stdin.rest).1 == Served(texts, old(stdin.rest)).1
      decreases |stdin.rest|
    {
      ghost var input, written := stdin.rest, stdout.written;
      var read := ReadFrame(MAX_FRAME_LENGTH, stdin);
      if read.Err? {
        return InputEnded(read.error);
      }
      FrameShrinks(input, MAX_FRAME_LENGTH);
      var reply := Process(texts, read.value);
      var ok := WriteFrame(stdout, reply);
      if !ok {
        return OutputRefused;
      }
      var later := Served(texts, stdin.rest).0;
      Regroup(written, Frame(reply), later);
    }
  }

  /** Requests written back to back, all within the bounds, are each answered by one frame,
      in order. */
  lemma {:induction false} OneFrameEach(texts: Texts, payloads: seq<seq<Byte>>)
    requires Fits(payloads, 8_388_608)
    requires forall p :: p in payloads ==> |Process(texts, p)| <= MAX_WRITE
    ensures Served(texts, Stream(payloads))
            == (Stream(Map(p => Process(texts, p), payloads)), InputEnded(CleanEof))
  {
    if payloads != [] {
      OneFrameEach(texts, payloads[1..]);
      FrameThenRest(payloads[0], Stream(payloads[1..]), MAX_FRAME_LENGTH);
      assert Map(p => Process(texts, p), payloads)[1..] == Map(p => Process(texts, p), payloads[1..]);
    }
  }

  // ----- the host's reading of an answer

  const READY_KEYS := ["kind", "protocol_version"]
  const RESULT_KEYS := ["kind", "response"]
  const FAILURE_KEYS := ["kind", "message"]

  /** Tagged by kind, unknown and repeated fields refused, versions 16-bit. */
  function ReadWorkerMessage(j: Value): Option<WorkerMessage> {
    if !j.Assoc? then None
    else
      match AssocOpt("kind", j.fields)
      case Some(kind) =>
        if kind == String("ready") && Fields("ready", READY_KEYS, j).Ok? then ReadReady(j.fields)
        else if kind == String("result") && Fields("result", RESULT_KEYS, j).Ok? then ReadResult(j.fields)
        else if kind == String("failure") && Fields("failure", FAILURE_KEYS, j).Ok? then ReadFailure(j.fields)
        else None
      case None => None
  }

  function ReadReady(fields: seq<Field>): Option<WorkerMessage> {
    match AssocOpt("protocol_version", fields)
    case Some(version) => if version.Int? && IsU16(version.n) then Some(Ready(version.n)) else None
    case None => None
  }

  function ReadResult(fields: seq<Field>): Option<WorkerMessage> {
    match AssocOpt("response", fields)
    case Some(value) =>
      (match DecodeResponse(value)
       case Ok(response) => if IsU16(response.protocolVersion) then Some(Result(response)) else None
       case Err(_) => None)
    case None => None
  }

  function ReadFailure(fields: seq<Field>): Option<WorkerMessage> {
    match AssocOpt("message", fields)
    case Some(message) => if message.String? then Some(Failure(message.s)) else None
    case None => None
  }

  /** How the host reads the worker's answer to one of its messages. */
  function Answer(texts: Texts, message: HostMessage): Option<WorkerMessage> {
    match texts.hostParse(Process(texts, texts.hostWrite(message)))
    case Some(j) => ReadWorkerMessage(j)
    case None => None
  }

  // ----- the honest exchange

  lemma ExactFieldsMeaning(expected: seq<string>, fields: seq<Field>)
    requires DistinctKeys(fields) && Distinct(expected)
    requires forall k :: k in expected <==> k in KeysOf(fields)
    ensures ExactFields(expected, fields)
  {
    var keys := KeysOf(fields);
    StringOrder();
    assert Distinct(keys);
    forall x: string
      ensures multiset(keys)[x] == multiset(expected)[x]
    {
      DistinctMultiset(keys, x);
      DistinctMultiset(expected, x);
    }
    SortPermutation(StringLess, expected, keys);
  }

  ghost predicate TwoKeys(fields: seq<Field>, first: string, second: string) {
    && DistinctKeys(fields)
    && forall k :: k in KeysOf(fields) <==> k == first || k == second
  }

  lemma KeysRead(fields: seq<Field>, first: Entry, second: Entry)
    requires first.value.Some? && second.value.Some?
    requires OnlyKeys(fields, [first, second]) && Reads(fields, first) && Reads(fields, second)
    ensures forall k :: k in KeysOf(fields) <==> k == first.key || k == second.key
  {
    var keys := KeysOf(fields);
    forall k
      ensures k in keys <==> k == first.key || k == second.key
    {
      if k in keys {
        var i :| 0 <= i < |keys| && keys[i] == k;
        assert fields[i] in fields;
      }
      if k == first.key || k == second.key {
        var found := AssocOpt(k, fields);
        var i :| 0 <= i < |fields| && fields[i] == Field(k, found.value);
        assert keys[i] == k;
      }
    }
  }

  /** A two-field object read back: no other keys, and both lookups agree. */
  lemma TwoFields(j: Value, first: Entry, second: Entry)
    requires first.key != second.key && first.value.Some? && second.value.Some?
    requires Canonical(j) == Object([first, second])
    ensures j.Assoc? && TwoKeys(j.fields, first.key, second.key)
    ensures Reads(j.fields, first) && Reads(j.fields, second)
  {
    var entries := [first, second];
    assert DistinctEntries(entries);
    ObjectExact(j.fields, entries);
    assert entries[0] == first && entries[1] == second;
    KeysRead(j.fields, first, second);
  }

  lemma TwoExactFields(fields: seq<Field>, first: string, second: string)
    requires first != second && TwoKeys(fields, first, second)
    ensures ExactFields([first, second], fields)
  {
    ExactFieldsMeaning([first, second], fields);
  }

  lemma ScalarRead(fields: seq<Field>, key: string, v: Value)
    requires v.String? || v.Int?
    ensures Reads(fields, Entry(key, Some(v))) <==> AssocOpt(key, fields) == Some(v)
  {
  }

  /** A host message as the worker receives it: its tag and its content. */
  lemma Received(j: Value, tag: string, key: string, content: Value)
    requires key != "kind"
    requires Canonical(j) == Object([Entry("kind", Some(String(tag))), Entry(key, Some(content))])
    ensures j.Assoc? && ExactFields(["kind", key], j.fields)
    ensures AssocOpt("kind", j.fields) == Some(String(tag))
    ensures Reads(j.fields, Entry(key, Some(content)))
  {
    TwoFields(j, Entry("kind", Some(String(tag))), Entry(key, Some(content)));
    TwoExactFields(j.fields, "kind", key);
    ScalarRead(j.fields, "kind", String(tag));
  }

  lemma HelloAnswered(fields: seq<Field>)
    requires ExactFields(["kind", "protocol_version"], fields)
    requires AssocOpt("kind", fields) == Some(String("hello"))
    requires AssocOpt("protocol_version", fields) == Some(Int(1))
    ensures Handle(Assoc(fields)) == WorkerValue(Ready(1))
  {
  }

  lemma EvaluateDispatched(fields: seq<Field>)
    requires AssocOpt("kind", fields) == Some(String("evaluate"))
    ensures Handle(Assoc(fields)) == HandleEvaluate(fields)
  {
    assert |"hello"| != |"evaluate"|;
  }

  lemma {:induction false} EvaluateAnswered(fields: seq<Field>, value: Value, request: Request)
    requires ExactFields(["kind", "request"], fields)
    requires AssocOpt("kind", fields) == Some(String("evaluate"))
    requires AssocOpt("request", fields) == Some(value) && DecodeRequest(value) == Ok(request)
    ensures Handle(Assoc(fields)) == WorkerValue(Result(Evaluation(request)))
  {
    EvaluateDispatched(fields);
  }

  lemma ContentKeys()
    ensures "protocol_version" != "kind" && "request" != "kind"
  {
    assert |"kind"| != |"protocol_version"| && |"kind"| != |"request"|;
  }

  /** The greeting is answered with readiness. */
  lemma HelloHandled(j: Value)
    requires Canonical(j) == Object(HostEntries(Hello))
    ensures Handle(j) == WorkerValue(Ready(1))
  {
    ContentKeys();
    Received(j, "hello", "protocol_version", Int(1));
    ScalarRead(j.fields, "protocol_version", Int(1));
    HelloAnswered(j.fields);
  }

  /** A request is answered with the kernel's response to it. */
  lemma EvaluateHandled(j: Value, request: Request)
    requires Canonical(j) == Object(HostEntries(Evaluate(request)))
    ensures Handle(j) == WorkerValue(Result(Evaluation(request)))
  {
    ContentKeys();
    Received(j, "evaluate", "request", EncodeRequest(request));
    var value := AssocOpt("request", j.fields).value;
    RequestDecoding(value, request);
    EvaluateAnswered(j.fields, value, request);
  }

  // ----- everything else is refused

  /** A failure message, whatever its text. */
  ghost predicate IsFailure(j: Value) {
    && j.Assoc? && |j.fields| == 2 && j.fields[0] == Field("kind", String("failure"))
    && j.fields[1].key == "message" && j.fields[1].value.String?
  }

  lemma FailIsFailure(text: string)
    ensures IsFailure(Fail(text))
  {
  }

  lemma ExactFieldsKeys(first: string, second: string, fields: seq<Field>)
    requires first != second && ExactFields([first, second], fields)
    ensures DistinctKeys(fields)
    ensures forall f :: f in fields ==> f.key == first || f.key == second
  {
    var keys, expected := KeysOf(fields), [first, second];
    assert multiset(keys) == multiset(Sort(StringLess, keys)) == multiset(expected);
    assert Distinct(expected);
    PermutationDistinct(expected, keys);
    PermutationMembers(keys, expected);
    forall f | f in fields
      ensures f.key == first || f.key == second
    {
      var i :| 0 <= i < |fields| && fields[i] == f;
      assert keys[i] == f.key && keys[i] in keys;
    }
    forall i, j | 0 <= i < j < |fields|
      ensures fields[i].key != fields[j].key
    {
      assert keys[i] != keys[j];
    }
  }

  lemma TwoOnly(fields: seq<Field>, a: Entry, b: Entry)
    requires forall f :: f in fields ==> f.key == a.key || f.key == b.key
    ensures OnlyKeys(fields, [a, b])
  {
    assert [a, b][0] in [a, b] && [a, b][1] in [a, b];
  }

  lemma TwoAnswers(fields: seq<Field>, a: Entry, b: Entry)
    requires Reads(fields, a) && Reads(fields, b)
    ensures Answers(fields, [a, b])
  {
  }

  lemma TwoDistinct(a: Entry, b: Entry)
    requires a.key != b.key
    ensures DistinctEntries([a, b])
  {
  }

  /** An object with exactly a tag and a content is what the host writes for them. */
  lemma Sent(fields: seq<Field>, tag: string, key: string, value: Value, content: Value)
    requires key != "kind" && ExactFields(["kind", key], fields)
    requires AssocOpt("kind", fields) == Some(String(tag)) && AssocOpt(key, fields) == Some(value)
    requires Canonical(value) == content
    ensures Canonical(Assoc(fields)) == Object([Entry("kind", Some(String(tag))), Entry(key, Some(content))])
  {
    var kind, body := Entry("kind", Some(String(tag))), Entry(key, Some(content));
    ExactFieldsKeys("kind", key, fields);
    ScalarRead(fields, "kind", String(tag));
    PairOf(fields, kind, body);
  }

  lemma PairOf(fields: seq<Field>, a: Entry, b: Entry)
    requires a.key != b.key && DistinctKeys(fields)
    requires forall f :: f in fields ==> f.key == a.key || f.key == b.key
    requires Reads(fields, a) && Reads(fields, b)
    ensures Canonical(Assoc(fields)) == Object([a, b])
  {
    TwoDistinct(a, b);
    TwoOnly(fields, a, b);
    TwoAnswers(fields, a, b);
    ObjectExact(fields, [a, b]);
  }

  lemma HelloAccepts(fields: seq<Field>)
    ensures IsFailure(HandleHello(fields))
            || (ExactFields(["kind", "protocol_version"], fields)
                && AssocOpt("protocol_version", fields) == Some(Int(1)))
  {
    FailIsFailure("worker message has invalid fields");
    FailIsFailure("worker message is missing protocol_version");
    FailIsFailure("protocol_version must be an integer");
    FailIsFailure("unsupported worker protocol version");
  }

  lemma HelloRefused(fields: seq<Field>)
    requires AssocOpt("kind", fields) == Some(String("hello"))
    requires Canonical(Assoc(fields)) != Object(HostEntries(Hello))
    ensures IsFailure(HandleHello(fields))
  {
    ContentKeys();
    HelloAccepts(fields);
    if !IsFailure(HandleHello(fields)) {
      Sent(fields, "hello", "protocol_version", Int(1), Int(1));
    }
  }

  lemma EvaluateAccepts(fields: seq<Field>)
    ensures IsFailure(HandleEvaluate(fields))
            || (ExactFields(["kind", "request"], fields) && AssocOpt("request", fields).Some?
                && DecodeRequest(AssocOpt("request", fields).value).Ok?)
  {
    FailIsFailure("worker message has invalid fields");
    FailIsFailure("worker message is missing request");
    if AssocOpt("request", fields).Some? && DecodeRequest(AssocOpt("request", fields).value).Err? {
      FailIsFailure(Message(DecodeRequest(AssocOpt("request", fields).value).error));
    }
  }

  lemma EvaluateRefused(fields: seq<Field>)
    requires AssocOpt("kind", fields) == Some(String("evaluate"))
    requires forall request :: Canonical(Assoc(fields)) != Object(HostEntries(Evaluate(request)))
    ensures IsFailure(HandleEvaluate(fields))
  {
    EvaluateAccepts(fields);
    if !IsFailure(HandleEvaluate(fields)) {
      var value := AssocOpt("request", fields).value;
      RequestSent(fields, value, DecodeRequest(value).value);
    }
  }

  lemma RequestSent(fields: seq<Field>, value: Value, request: Request)
    requires ExactFields(["kind", "request"], fields) && AssocOpt("kind", fields) == Some(String("evaluate"))
    requires AssocOpt("request", fields) == Some(value) && DecodeRequest(value) == Ok(request)
    ensures Canonical(Assoc(fields)) == Object(HostEntries(Evaluate(request)))
  {
    ContentKeys();
    RequestDecoding(value, request);
    Sent(fields, "evaluate", "request", value, EncodeRequest(request));
  }

  lemma HelloDispatched(fields: seq<Field>)
    requires AssocOpt("kind", fields) == Some(String("hello"))
    ensures Handle(Assoc(fields)) == HandleHello(fields)
  {
  }

  /** No other kind of message is known. */
  lemma OtherKind(j: Value)
    ensures IsFailure(Handle(j))
            || (j.Assoc? && AssocOpt("kind", j.fields) in {Some(String("hello")), Some(String("evaluate"))})
  {
    FailIsFailure("worker message is missing kind");
    FailIsFailure("kind must be a string");
    FailIsFailure("unknown worker message kind");
    FailIsFailure("worker message must be a JSON object");
  }

  /** Whatever is neither the greeting of this version nor a well-formed request, at any depth, is
      answered with a failure: another version, another kind, a missing, repeated or further
      field, or no object at all. */
  lemma OthersRefused(j: Value)
    requires Canonical(j) != Object(HostEntries(Hello))
    requires forall request :: Canonical(j) != Object(HostEntries(Evaluate(request)))
    ensures IsFailure(Handle(j))
  {
    OtherKind(j);
    if !IsFailure(Handle(j)) {
      if AssocOpt("kind", j.fields) == Some(String("hello")) {
        HelloDispatched(j.fields);
        HelloRefused(j.fields);
      } else {
        EvaluateDispatched(j.fields);
        EvaluateRefused(j.fields);
      }
    }
  }

  /** A payload that is no JSON text is answered with a failure too. */
  lemma UnparsedRefused(texts: Texts, payload: seq<Byte>)
    requires texts.parse(payload).Err?
    ensures exists reply :: IsFailure(reply) && Process(texts, payload) == texts.render(reply)
  {
    var reply := Fail("invalid worker JSON: " + texts.parse(payload).error);
    FailIsFailure("invalid worker JSON: " + texts.parse(payload).error);
  }

  lemma EvaluationVersion(request: Request)
    ensures Evaluation(request).protocolVersion == 1
  {
  }

  lemma {:induction false} PairCanonical(first: string, v: Value, second: string, w: Value)
    requires Ordered(v) && Ordered(w)
    ensures Canonical(Assoc([Field(first, v), Field(second, w)]))
            == Object([Entry(first, Some(v)), Entry(second, Some(w))])
  {
    OrderedIsCanonical(v);
    OrderedIsCanonical(w);
    var fields := [Field(first, v), Field(second, w)];
    assert CanonicalFields(fields) == fields;
    PresentPair(Field(first, v), Field(second, w));
  }

  lemma {:induction false} PresentPair(first: Field, second: Field)
    ensures Present([Entry(first.key, Some(first.value)), Entry(second.key, Some(second.value))]) == [first, second]
  {
    var entries := [Entry(first.key, Some(first.value)), Entry(second.key, Some(second.value))];
    assert entries[1..] == [entries[1]] && entries[1..][1..] == [];
    assert Present(entries[1..]) == [second];
  }

  lemma PairAccepted(context: string, j: Value, allowed: seq<string>, entries: seq<Entry>)
    requires |entries| == 2 && allowed == [entries[0].key, entries[1].key]
    requires Apart(allowed[0], allowed[1])
    requires Canonical(j) == Object(entries)
    ensures Fields(context, allowed, j).Ok? && j.Assoc?
    ensures Reads(j.fields, entries[0]) && Reads(j.fields, entries[1])
  {
    AcceptedExact(context, allowed, j, entries);
    FieldsExact(context, allowed, j);
  }

  /** A worker message as the host receives it: its tag and its content. */
  lemma Delivered(context: string, j: Value, tag: string, key: string, content: Value)
    requires Apart("kind", key) && Ordered(content)
    requires Canonical(j) == Canonical(Assoc([Field("kind", String(tag)), Field(key, content)]))
    ensures Fields(context, ["kind", key], j).Ok? && j.Assoc?
    ensures AssocOpt("kind", j.fields) == Some(String(tag))
    ensures Reads(j.fields, Entry(key, Some(content)))
  {
    PairCanonical("kind", String(tag), key, content);
    var entries := [Entry("kind", Some(String(tag))), Entry(key, Some(content))];
    PairAccepted(context, j, ["kind", key], entries);
    assert entries[0].key == "kind" && entries[1].key == key;
    ScalarRead(j.fields, "kind", String(tag));
  }

  lemma ReadyDelivered(j: Value, version: nat)
    requires IsU16(version)
    requires Canonical(j) == Canonical(WorkerValue(Ready(version)))
    ensures ReadWorkerMessage(j) == Some(Ready(version))
  {
    ContentApart();
    Delivered("ready", j, "ready", "protocol_version", Int(version));
    ScalarRead(j.fields, "protocol_version", Int(version));
  }

  lemma ContentApart()
    ensures Apart("kind", "protocol_version") && Apart("kind", "response")
    ensures String("ready") != String("result")
  {
    assert |"ready"| != |"result"|;
  }

  lemma ResultDelivered(j: Value, response: Response)
    requires IsU16(response.protocolVersion)
    requires Canonical(j) == Canonical(WorkerValue(Result(response)))
    ensures ReadWorkerMessage(j) == Some(Result(response))
  {
    ContentApart();
    ResponseRoundTrip(response);
    Delivered("result", j, "result", "response", EncodeResponse(response));
    ResponseDecoding(AssocOpt("response", j.fields).value, response);
    ResultRead(j, response);
  }

  lemma ResultRead(j: Value, response: Response)
    requires IsU16(response.protocolVersion)
    requires Fields("result", RESULT_KEYS, j).Ok? && j.Assoc?
    requires AssocOpt("kind", j.fields) == Some(String("result"))
    requires AssocOpt("response", j.fields).Some?
    requires DecodeResponse(AssocOpt("response", j.fields).value) == Ok(response)
    ensures ReadWorkerMessage(j) == Some(Result(response))
  {
    ContentApart();
  }

  // ----- the host reads exactly what a worker can say

  lemma FailureDelivered(j: Value, text: string)
    requires Canonical(j) == Canonical(WorkerValue(Failure(text)))
    ensures ReadWorkerMessage(j) == Some(Failure(text))
  {
    FailureApart();
    Delivered("failure", j, "failure", "message", String(text));
    ScalarRead(j.fields, "message", String(text));
    FailureTaken(j, text);
  }

  lemma FailureTaken(j: Value, text: string)
    requires Fields("failure", FAILURE_KEYS, j).Ok? && j.Assoc?
    requires AssocOpt("kind", j.fields) == Some(String("failure"))
    requires AssocOpt("message", j.fields) == Some(String(text))
    ensures ReadWorkerMessage(j) == Some(Failure(text))
  {
    FailureApart();
  }

  lemma FailureApart()
    ensures Apart("kind", "message")
    ensures String("failure") != String("result") && String("failure") != String("ready")
  {
    assert |"failure"| != |"result"| && |"failure"| != |"ready"|;
  }

  lemma AllowedKeys(context: string, j: Value, key: string)
    requires Fields(context, ["kind", key], j).Ok?
    ensures j.Assoc? && DistinctKeys(j.fields) && forall f :: f in j.fields ==> f.key == "kind" || f.key == key
  {
    FieldsExact(context, ["kind", key], j);
  }

  lemma TagAndContent(context: string, j: Value, tag: string, key: string, value: Value, content: Value)
    requires key != "kind" && Fields(context, ["kind", key], j).Ok? && j.Assoc?
    requires AssocOpt("kind", j.fields) == Some(String(tag)) && AssocOpt(key, j.fields) == Some(value)
    requires Ordered(content) && Canonical(value) == content
    ensures Canonical(j) == Canonical(Assoc([Field("kind", String(tag)), Field(key, content)]))
  {
    AllowedKeys(context, j, key);
    ScalarRead(j.fields, "kind", String(tag));
    PairOf(j.fields, Entry("kind", Some(String(tag))), Entry(key, Some(content)));
    PairCanonical("kind", String(tag), key, content);
  }

  lemma MessageKeys()
    ensures "protocol_version" != "kind" && "response" != "kind" && "message" != "kind"
  {
    assert |"kind"| != |"protocol_version"| && |"kind"| != |"response"| && |"kind"| != |"message"|;
  }

  lemma ReadyFacts(j: Value, version: nat)
    requires ReadWorkerMessage(j) == Some(Ready(version))
    ensures j.Assoc? && Fields("ready", ["kind", "protocol_version"], j).Ok?
    ensures AssocOpt("kind", j.fields) == Some(String("ready"))
    ensures AssocOpt("protocol_version", j.fields) == Some(Int(version))
  {
  }

  lemma ResultFacts(j: Value, response: Response)
    requires ReadWorkerMessage(j) == Some(Result(response))
    ensures j.Assoc? && Fields("result", ["kind", "response"], j).Ok?
    ensures AssocOpt("kind", j.fields) == Some(String("result")) && AssocOpt("response", j.fields).Some?
    ensures DecodeResponse(AssocOpt("response", j.fields).value) == Ok(response)
  {
  }

  lemma FailureFacts(j: Value, text: string)
    requires ReadWorkerMessage(j) == Some(Failure(text))
    ensures j.Assoc? && Fields("failure", ["kind", "message"], j).Ok?
    ensures AssocOpt("kind", j.fields) == Some(String("failure"))
    ensures AssocOpt("message", j.fields) == Some(String(text))
  {
  }

  lemma ReadyRead(j: Value, version: nat)
    requires ReadWorkerMessage(j) == Some(Ready(version))
    ensures Canonical(j) == Canonical(WorkerValue(Ready(version)))
  {
    ReadyFacts(j, version);
    MessageKeys();
    TagAndContent("ready", j, "ready", "protocol_version", Int(version), Int(version));
  }

  lemma DecodedResponse(value: Value, response: Response)
    requires DecodeResponse(value) == Ok(response)
    ensures Ordered(EncodeResponse(response)) && Canonical(value) == EncodeResponse(response)
  {
    ResponseRoundTrip(response);
    ResponseDecoding(value, response);
  }

  lemma ResultValue(response: Response, content: Value)
    requires content == EncodeResponse(response)
    ensures WorkerValue(Result(response)) == Assoc([Field("kind", String("result")), Field("response", content)])
  {
  }

  lemma ResponseSaid(j: Value, value: Value, response: Response)
    requires Fields("result", ["kind", "response"], j).Ok? && j.Assoc?
    requires AssocOpt("kind", j.fields) == Some(String("result")) && AssocOpt("response", j.fields) == Some(value)
    requires Ordered(EncodeResponse(response)) && Canonical(value) == EncodeResponse(response)
    ensures Canonical(j) == Canonical(WorkerValue(Result(response)))
  {
    assert "response" != "kind" by {
      MessageKeys();
    }
    TagAndContent("result", j, "result", "response", value, EncodeResponse(response));
    ResultValue(response, EncodeResponse(response));
  }

  lemma ResponseRead(j: Value, response: Response)
    requires ReadWorkerMessage(j) == Some(Result(response))
    ensures Canonical(j) == Canonical(WorkerValue(Result(response)))
  {
    ResultFacts(j, response);
    DecodedResponse(AssocOpt("response", j.fields).value, response);
    ResponseSaid(j, AssocOpt("response", j.fields).value, response);
  }

  lemma FailureRead(j: Value, text: string)
    requires ReadWorkerMessage(j) == Some(Failure(text))
    ensures Canonical(j) == Canonical(WorkerValue(Failure(text)))
  {
    FailureFacts(j, text);
    MessageKeys();
    TagAndContent("failure", j, "failure", "message", String(text), String(text));
  }

  /** The host takes a value for a message exactly when it is that message, up to the order of
      fields: no field may be missing, repeated or unknown. */
  lemma ReadExactly(j: Value, message: WorkerMessage)
    requires HostCanHold(message)
    ensures ReadWorkerMessage(j) == Some(message) <==> Canonical(j) == Canonical(WorkerValue(message))
  {
    match message
    case Ready(version) =>
      if ReadWorkerMessage(j) == Some(message) {
        ReadyRead(j, version);
      } else if Canonical(j) == Canonical(WorkerValue(message)) {
        ReadyDelivered(j, version);
      }
    case Result(response) =>
      if ReadWorkerMessage(j) == Some(message) {
        ResponseRead(j, response);
      } else if Canonical(j) == Canonical(WorkerValue(message)) {
        ResultDelivered(j, response);
      }
    case Failure(text) =>
      if ReadWorkerMessage(j) == Some(message) {
        FailureRead(j, text);
      } else if Canonical(j) == Canonical(WorkerValue(message)) {
        FailureDelivered(j, text);
      }
  }

  lemma HonestHello(texts: Texts)
    requires Faithful(texts)
    ensures Answer(texts, Hello) == Some(Ready(1))
  {
    assert HostCanSend(Hello) && HostCanHold(Ready(1));
    HelloHandled(texts.parse(texts.hostWrite(Hello)).value);
    ReadyDelivered(texts.hostParse(texts.render(WorkerValue(Ready(1)))).value, 1);
  }

  lemma HonestResult(texts: Texts, request: Request)
    requires Faithful(texts) && IsU16(request.protocolVersion)
    ensures Answer(texts, Evaluate(request)) == Some(Result(Evaluation(request)))
  {
    var response := Evaluation(request);
    assert HostCanSend(Evaluate(request));
    EvaluateHandled(texts.parse(texts.hostWrite(Evaluate(request))).value, request);
    EvaluationVersion(request);
    AnswerRead(texts, Evaluate(request), response);
  }

  lemma AnswerRead(texts: Texts, message: HostMessage, response: Response)
    requires Faithful(texts) && IsU16(response.protocolVersion)
    requires texts.parse(texts.hostWrite(message)).Ok?
    requires Handle(texts.parse(texts.hostWrite(message)).value) == WorkerValue(Result(response))
    ensures Answer(texts, message) == Some(Result(response))
  {
    assert HostCanHold(Result(response));
    ResultDelivered(texts.hostParse(texts.render(WorkerValue(Result(response)))).value, response);
  }

  /** The honest exchange: the greeting is answered with readiness, and the answer to a
      request is the kernel's response to that request. */
  lemma HonestAnswer(texts: Texts, message: HostMessage)
    requires Faithful(texts) && HostCanSend(message)
    ensures message.Hello? ==> Answer(texts, message) == Some(Ready(1))
    ensures message.Evaluate? ==> Answer(texts, message) == Some(Result(Evaluation(message.request)))
  {
    if message.Hello? {
      HonestHello(texts);
    } else {
      HonestResult(texts, message.request);
    }
  }
}
