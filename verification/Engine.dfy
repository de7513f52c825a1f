/**
 What a connection does with the bytes it receives, as functions on values
 (conn_handler.go, router.go). The classes of module Connection are proved
 against these functions.
 */
module Engine {
  import opened Bytes
  import opened Wrappers
  import opened Frames
  import opened Messages
  import opened Bodies
  import opened ConnLimits

  /** Result of a handler: no message, a message, or an error. */
  datatype Reply = Silent | Answer(message: Message) | Failure

  /** A handler may depend on every message dispatched on the connection before. */
  type Handler = (seq<Message>, Message) -> Reply

  datatype ConnError =
    | QuotaExceeded
    | RateLimited
    | BadFrame(frameError: FrameError)
    | BadBody(bodyError: BodyError)
    | MessageTooShort
    | UnknownCommand(command: uint16)
    | HandlerFailed
    | EncodePanic
    | WriteFailed

  /** One call of `Write` on the peer: it takes some bytes, or takes some and then fails. */
  datatype WriteStep = Accept(n: nat) | Break(n: nat)

  /** Everything the connection does not decide itself; `clock(k)` is the clock read by the k-th call of Allow. */
  datatype Env = Env(gz: Gzip, handlers: map<uint16, Handler>, clock: nat -> int)

  datatype Exchange = Exchange(request: Frame, message: Message, reply: Reply)

  /** `log` records the dispatched frames, `out` the bytes written, `plan` the outcomes of the writes to come. */
  datatype Server = Server(bucket: Bucket, calls: nat, log: seq<Exchange>, plan: seq<WriteStep>, out: seq<byte>)

  function Dispatched(log: seq<Exchange>): seq<Message> {
    seq(|log|, i requires 0 <= i < |log| => log[i].message)
  }

  // ----- writing -----

  datatype Written = Written(ok: bool, sent: seq<byte>, plan: seq<WriteStep>)

  function Min(a: nat, b: nat): nat {
    if a <= b then a else b
  }

  /** An accepted write of nonempty data takes at least one byte. */
  function Taken(n: nat): nat {
    if n == 0 then 1 else n
  }

  /** One write of nonempty data; once the plan is used up every write is complete. */
  function WriteOnce(plan: seq<WriteStep>, data: seq<byte>): (w: Written)
    requires data != []
    ensures w.sent <= data && (w.ok ==> w.sent != [])
  {
    if plan == [] then Written(true, data, [])
    else match plan[0]
      case Accept(n) => Written(true, data[..Min(Taken(n), |data|)], plan[1..])
      case Break(n) => Written(false, data[..Min(n, |data|)], plan[1..])
  }

  /** Writes until nothing is left or a write fails. */
  function WriteAll(plan: seq<WriteStep>, data: seq<byte>): (w: Written)
    ensures w.sent <= data
    ensures w.ok ==> w.sent == data
    ensures (forall i :: 0 <= i < |plan| ==> plan[i].Accept?) ==> w.ok
    ensures |w.plan| <= |plan| && w.plan == plan[|plan| - |w.plan|..]
    decreases |data|
  {
    if data == [] then Written(true, [], plan)
    else
      var first := WriteOnce(plan, data);
      if !first.ok then first
      else
        var rest := WriteAll(first.plan, data[|first.sent|..]);
        assert data == data[..|first.sent|] + data[|first.sent|..];
        rest.(sent := first.sent + rest.sent)
  }

  /** The first write that fails: the writes before it take up to `room` bytes, and it takes up to `taken` more. */
  datatype Fault = Fault(room: nat, taken: nat)

  function FirstFault(plan: seq<WriteStep>): Option<Fault> {
    if plan == [] then None
    else match plan[0]
      case Break(n) => Some(Fault(0, n))
      case Accept(n) => Delayed(n, FirstFault(plan[1..]))
  }

  function Delayed(n: nat, fault: Option<Fault>): Option<Fault> {
    match fault
    case None => None
    case Some(f) => Some(Fault(Taken(n) + f.room, f.taken))
  }

  /**
   Success means that the writes before the fault take all `size` bytes; otherwise the failing
   write adds what it takes, which may complete the data all the same.
   */
  predicate Explained(fault: Option<Fault>, size: nat, ok: bool, sent: nat) {
    match fault
    case None => ok && sent == size
    case Some(f) =>
      && (ok <==> size <= f.room)
      && sent == if ok then size else Min(f.room + f.taken, size)
  }

  lemma DelayedExplained(n: nat, fault: Option<Fault>, size: nat, ok: bool, sent: nat)
    requires Explained(fault, size - Min(Taken(n), size), ok, sent)
    ensures Explained(Delayed(n, fault), size, ok, Min(Taken(n), size) + sent)
  {
  }

  lemma WriteAllStep(plan: seq<WriteStep>, data: seq<byte>)
    requires data != [] && plan != [] && plan[0].Accept?
    ensures var take := Min(Taken(plan[0].n), |data|);
            var w, rest := WriteAll(plan, data), WriteAll(plan[1..], data[take..]);
            w.ok == rest.ok && |w.sent| == take + |rest.sent|
  {
    assert WriteOnce(plan, data) == Written(true, data[..Min(Taken(plan[0].n), |data|)], plan[1..]);
  }

  /** When all of the data is sent, and how much of it otherwise. */
  lemma {:induction false} WriteSucceedsExactly(plan: seq<WriteStep>, data: seq<byte>)
    ensures var w := WriteAll(plan, data);
            w.sent <= data && Explained(FirstFault(plan), |data|, w.ok, |w.sent|)
    decreases |data|
  {
    if data != [] && plan != [] && plan[0].Accept? {
      var left := data[Min(Taken(plan[0].n), |data|)..];
      WriteSucceedsExactly(plan[1..], left);
      var w := WriteAll(plan[1..], left);
      DelayedExplained(plan[0].n, FirstFault(plan[1..]), |data|, w.ok, |w.sent|);
      WriteAllStep(plan, data);
    }
  }

  /** A write that takes everything and then fails: all is sent, and yet a failure is reported. */
  lemma SentYetFailed(data: seq<byte>)
    requires data != []
    ensures WriteAll([Break(|data|)], data) == Written(false, data, [])
  {
    assert data[..|data|] == data;
  }

  // ----- one frame -----

  /** A reply without a request ID takes the ID of the request. */
  function FillRequestId(m: Message, request: Message): Message {
    if m.requestId == 0 then m.(requestId := request.requestId) else m
  }

  /** The frame that carries an answer; version 0 stands for the current version. */
  function ResponseFrame(gz: Gzip, request: Frame, message: Message, answer: Message): Frame {
    var bytes := MessageBytes(FillRequestId(answer, message));
    var flags := request.flags % 2;
    Frame(0, flags, if Compressed(flags) then gz.compress(bytes) else bytes)
  }

  function Send(s: Server, f: Frame): (Server, Option<ConnError>) {
    if |f.body| > MAX_BODY then (s, Some(EncodePanic))
    else
      var w := WriteAll(s.plan, Encoding(f));
      (s.(plan := w.plan, out := s.out + w.sent), if w.ok then None else Some(WriteFailed))
  }

  function Respond(gz: Gzip, s: Server, e: Exchange): (Server, Option<ConnError>) {
    match e.reply
    case Failure => (s, Some(HandlerFailed))
    case Silent => (s, None)
    case Answer(answer) =>
      if OneWay(e.request.flags) then (s, None)
      else Send(s, ResponseFrame(gz, e.request, e.message, answer))
  }

  function Accepted(env: Env, s: Server, f: Frame): Result<Exchange, ConnError> {
    match DecodeFrameBody(env.gz, f)
    case Err(e) => Err(BadBody(e))
    case Ok(body) =>
      match DecodeMessage(body)
      case None => Err(MessageTooShort)
      case Some(msg) =>
        if msg.command !in env.handlers then Err(UnknownCommand(msg.command))
        else Ok(Exchange(f, msg, env.handlers[msg.command](Dispatched(s.log), msg)))
  }

  function HandleFrame(env: Env, s: Server, f: Frame): (Server, Option<ConnError>) {
    var now := env.clock(s.calls);
    var s' := s.(bucket := AfterAllow(s.bucket, now), calls := s.calls + 1);
    if !Admits(s.bucket, now) then (s', Some(RateLimited))
    else match Accepted(env, s, f)
      case Err(e) => (s', Some(e))
      case Ok(exchange) => Respond(env.gz, s'.(log := s.log + [exchange]), exchange)
  }

  // ----- the stream -----

  /** `rest` holds the bytes not yet parsed, from the offending frame on if there was an error. */
  datatype Outcome = Outcome(server: Server, rest: seq<byte>, error: Option<ConnError>)

  /** Parses and handles every complete frame of `buf`, in order, up to the first error. */
  function Process(env: Env, s: Server, buf: seq<byte>): Outcome
    decreases |buf|
  {
    match Decode(buf)
    case Incomplete => Outcome(s, buf, None)
    case Invalid(e) => Outcome(s, buf, Some(BadFrame(e)))
    case Complete(f, n) =>
      EncodeDecoded(buf);
      var (s', error) := HandleFrame(env, s, f);
      if error.Some? then Outcome(s', buf, error) else Process(env, s', buf[n..])
  }

  /** The connection loop over the chunks that the reads return, followed by EOF. */
  function Serve(env: Env, s: Server, buf: seq<byte>, chunks: seq<seq<byte>>): Outcome
    decreases |chunks|
  {
    if chunks == [] then Outcome(s, buf, None)
    else if |buf| + |chunks[0]| > MAX_BUFFER then Outcome(s, buf, Some(QuotaExceeded))
    else
      var r := Process(env, s, buf + chunks[0]);
      if r.error.Some? then r else Serve(env, r.server, r.rest, chunks[1..])
  }

  function Concat(chunks: seq<seq<byte>>): seq<byte> {
    if chunks == [] then [] else chunks[0] + Concat(chunks[1..])
  }
}
