/** What becomes of a frame, told from its bytes and the command table (conn_handler.go:102-144, router.go). */
module Dispatch {
  import opened Bytes
  import opened Wrappers
  import opened Frames
  import opened Messages
  import opened Bodies
  import opened ConnLimits
  import opened Engine

  // ----- the message in a frame -----

  /** The content of the frame: its body, or what it inflates to, which may be at most 1 MiB long. */
  ghost predicate Content(gz: Gzip, f: Frame, data: seq<byte>) {
    && f.flags / 2 % 2 == 0
    && if f.flags % 2 == 0 then f.body == data else gz.inflate(f.body) == Some(data) && |data| <= 1_048_576
  }

  /** The frame is not encrypted, and its content is the message. */
  ghost predicate Carries(gz: Gzip, f: Frame, m: Message) {
    Content(gz, f, MessageBytes(m))
  }

  lemma CarriesOne(gz: Gzip, f: Frame, m: Message, other: Message)
    requires Carries(gz, f, m) && Carries(gz, f, other)
    ensures m == other
  {
    DecodeMessageBytes(m);
    DecodeMessageBytes(other);
  }

  lemma AcceptedExactly(env: Env, s: Server, f: Frame, m: Message)
    requires Carries(env.gz, f, m)
    ensures Accepted(env, s, f) ==
            if m.command !in env.handlers then Err(UnknownCommand(m.command))
            else Ok(Exchange(f, m, env.handlers[m.command](Dispatched(s.log), m)))
  {
    DecodeMessageBytes(m);
  }

  /** A frame that carries no message is refused, for the first of these reasons. */
  lemma RefusedExactly(env: Env, s: Server, f: Frame)
    ensures Accepted(env, s, f).Err? && !Accepted(env, s, f).error.UnknownCommand? <==>
            !exists m :: Carries(env.gz, f, m)
    ensures f.flags / 2 % 2 == 1 ==> Accepted(env, s, f) == Err(BadBody(UnsupportedFlags))
    ensures f.flags / 2 % 2 == 0 && f.flags % 2 == 1 ==>
              match env.gz.inflate(f.body)
              case None => Accepted(env, s, f) == Err(BadBody(BadArchive))
              case Some(data) => |data| > 1_048_576 ==> Accepted(env, s, f) == Err(BadBody(InflatedTooLarge))
    ensures forall data :: Content(env.gz, f, data) && |data| < 10 ==> Accepted(env, s, f) == Err(MessageTooShort)
  {
    var content := DecodeFrameBody(env.gz, f);
    if content.Ok? {
      assert Content(env.gz, f, content.value);
      EncodeDecodedMessage(content.value);
      if DecodeMessage(content.value).Some? {
        assert Carries(env.gz, f, DecodeMessage(content.value).value);
      }
    }
    if m :| Carries(env.gz, f, m) {
      AcceptedExactly(env, s, f, m);
    }
  }

  // ----- one frame -----

  /** The connection after the limiter was asked: all that changes for a frame that is not dispatched. */
  function Asked(env: Env, s: Server): Server {
    s.(bucket := AfterAllow(s.bucket, env.clock(s.calls)), calls := s.calls + 1)
  }

  /** Admitted by the limiter, readable, and with a registered command. */
  ghost predicate Dispatchable(env: Env, s: Server, f: Frame) {
    Admits(s.bucket, env.clock(s.calls)) && exists m :: Carries(env.gz, f, m) && m.command in env.handlers
  }

  /** A frame ends the connection before any handler runs exactly if it is not dispatchable, and writes nothing then. */
  lemma FrameRefused(env: Env, s: Server, f: Frame)
    ensures var (s', error) := HandleFrame(env, s, f);
            && (s'.log == s.log <==> !Dispatchable(env, s, f))
            && (!Dispatchable(env, s, f) ==> s' == Asked(env, s) && error.Some?)
  {
    RefusedExactly(env, s, f);
    if m :| Carries(env.gz, f, m) {
      AcceptedExactly(env, s, f, m);
      forall other | Carries(env.gz, f, other)
        ensures other == m
      {
        CarriesOne(env.gz, f, m, other);
      }
    }
  }

  /** The errors of frames that are not dispatched, in the order of the checks. */
  lemma RefusalKind(env: Env, s: Server, f: Frame)
    ensures var error := HandleFrame(env, s, f).1;
            if !Admits(s.bucket, env.clock(s.calls)) then error == Some(RateLimited)
            else if f.flags / 2 % 2 == 1 then error == Some(BadBody(UnsupportedFlags))
            else if f.flags % 2 == 1 && env.gz.inflate(f.body).None? then error == Some(BadBody(BadArchive))
            else if f.flags % 2 == 1 && |env.gz.inflate(f.body).value| > 1_048_576
            then error == Some(BadBody(InflatedTooLarge))
            else
              && (forall data :: Content(env.gz, f, data) && |data| < 10 ==> error == Some(MessageTooShort))
              && forall m :: Carries(env.gz, f, m) && m.command !in env.handlers ==>
                             error == Some(UnknownCommand(m.command))
  {
    RefusedExactly(env, s, f);
    forall m | Carries(env.gz, f, m) && m.command !in env.handlers
      ensures Accepted(env, s, f) == Err(UnknownCommand(m.command))
    {
      AcceptedExactly(env, s, f, m);
    }
  }

  /** The exchange of a dispatched frame: the handler registered for its command answers the message it carries. */
  ghost predicate FromTable(env: Env, before: seq<Exchange>, e: Exchange) {
    && Carries(env.gz, e.request, e.message) && e.message.command in env.handlers
    && e.reply == env.handlers[e.message.command](
         seq(|before|, i requires 0 <= i < |before| => before[i].message), e.message)
  }

  /** A dispatchable frame is dispatched once, to its handler, before its reply is dealt with. */
  lemma FrameDispatched(env: Env, s: Server, f: Frame) returns (e: Exchange)
    requires Dispatchable(env, s, f)
    ensures e.request == f && FromTable(env, s.log, e)
    ensures HandleFrame(env, s, f) == Respond(env.gz, Asked(env, s).(log := s.log + [e]), e)
  {
    var m :| Carries(env.gz, f, m) && m.command in env.handlers;
    AcceptedExactly(env, s, f, m);
    e := Accepted(env, s, f).value;
  }

  lemma SendOutcome(s: Server, f: Frame)
    requires f.version == 0
    ensures Send(s, f) ==
            if |f.body| > 1_048_576 then (s, Some(EncodePanic))
            else
              var w := WriteAll(s.plan, Encoding(Frame(1, f.flags, f.body)));
              (s.(plan := w.plan, out := s.out + w.sent), if w.ok then None else Some(WriteFailed))
  {
    assert Encoding(f) == Encoding(Frame(1, f.flags, f.body));
  }

  /** A failure ends the connection; no message, or a one-way request, writes nothing. */
  lemma QuietOutcome(gz: Gzip, s: Server, e: Exchange)
    requires !e.reply.Answer? || e.request.flags / 4 % 2 == 1
    ensures Respond(gz, s, e) == (s, if e.reply.Failure? then Some(HandlerFailed) else None)
  {
  }

  /** The bytes of an answer: with the request's ID if it has none of its own. */
  function AnswerBytes(e: Exchange, a: Message): seq<byte> {
    MessageBytes(if a.requestId == 0 then a.(requestId := e.message.requestId) else a)
  }

  lemma AnswerFrame(gz: Gzip, e: Exchange, a: Message)
    ensures ResponseFrame(gz, e.request, e.message, a) ==
            if e.request.flags % 2 == 1 then Frame(0, 1, gz.compress(AnswerBytes(e, a)))
            else Frame(0, 0, AnswerBytes(e, a))
  {
  }

  /** An answer is sent, compressed if the request was, or is too large to be encoded. */
  lemma AnswerOutcome(gz: Gzip, s: Server, e: Exchange)
    requires e.reply.Answer? && e.request.flags / 4 % 2 == 0
    ensures var compressed, bytes := e.request.flags % 2 == 1, AnswerBytes(e, e.reply.message);
            var body := if compressed then gz.compress(bytes) else bytes;
            var w := WriteAll(s.plan, Encoding(Frame(1, if compressed then 1 else 0, body)));
            Respond(gz, s, e) ==
            if |body| > 1_048_576 then (s, Some(EncodePanic))
            else (s.(plan := w.plan, out := s.out + w.sent), if w.ok then None else Some(WriteFailed))
  {
    AnswerFrame(gz, e, e.reply.message);
    SendOutcome(s, ResponseFrame(gz, e.request, e.message, e.reply.message));
    assert Respond(gz, s, e) == Send(s, ResponseFrame(gz, e.request, e.message, e.reply.message));
  }

  // ----- every run -----

  /** Every exchange in the log is what the command table made of a frame that carries its message. */
  ghost predicate Genuine(env: Env, log: seq<Exchange>) {
    forall i :: 0 <= i < |log| ==> FromTable(env, log[..i], log[i]) && |log[i].request.body| <= 1_048_576
  }

  lemma GenuineMore(env: Env, log: seq<Exchange>, e: Exchange)
    requires Genuine(env, log) && FromTable(env, log, e) && |e.request.body| <= 1_048_576
    ensures Genuine(env, log + [e])
  {
    var more := log + [e];
    forall i | 0 <= i < |more|
      ensures FromTable(env, more[..i], more[i]) && |more[i].request.body| <= 1_048_576
    {
      assert more[..i] == if i < |log| then log[..i] else log;
    }
  }

  lemma HandleGenuine(env: Env, s: Server, f: Frame)
    requires Genuine(env, s.log) && |f.body| <= 1_048_576
    ensures Genuine(env, HandleFrame(env, s, f).0.log)
  {
    FrameRefused(env, s, f);
    if Dispatchable(env, s, f) {
      var e := FrameDispatched(env, s, f);
      GenuineMore(env, s.log, e);
    }
  }

  lemma {:induction false} ProcessGenuine(env: Env, s: Server, buf: seq<byte>)
    requires Genuine(env, s.log)
    ensures Genuine(env, Process(env, s, buf).server.log)
    decreases |buf|
  {
    if Decode(buf).Complete? {
      var Complete(f, n) := Decode(buf);
      EncodeDecoded(buf);
      HandleGenuine(env, s, f);
      if HandleFrame(env, s, f).1.None? {
        ProcessGenuine(env, HandleFrame(env, s, f).0, buf[n..]);
      }
    }
  }

  /**
   Over every run, however it ends: each dispatched command is registered, the reply is its
   handler's for the messages dispatched before, and the request was unencrypted and carried
   the message in at most 1 MiB.
   */
  lemma {:induction false} ServeGenuine(env: Env, s: Server, buf: seq<byte>, chunks: seq<seq<byte>>)
    requires Genuine(env, s.log)
    ensures Genuine(env, Serve(env, s, buf, chunks).server.log)
    decreases |chunks|
  {
    if chunks != [] && |buf| + |chunks[0]| <= MAX_BUFFER {
      var r := Process(env, s, buf + chunks[0]);
      ProcessGenuine(env, s, buf + chunks[0]);
      if r.error.None? {
        ServeGenuine(env, r.server, r.rest, chunks[1..]);
      }
    }
  }

  // ----- errors of the frame format -----

  lemma HandleErrors(env: Env, s: Server, f: Frame)
    ensures var error := HandleFrame(env, s, f).1;
            error.Some? ==> !error.value.BadFrame? && !error.value.QuotaExceeded?
  {
  }

  /** A format error ends the connection; one is reported only if the bytes have it, and the quota never is. */
  lemma {:induction false} ProcessError(env: Env, s: Server, buf: seq<byte>)
    ensures var r, p := Process(env, s, buf), ParseAll(buf);
            && (r.error.None? ==> p.error.None? && r.rest == p.rest)
            && (r.error.Some? && r.error.value.BadFrame? ==> p.error == Some(r.error.value.frameError))
            && (p.error.Some? ==> r.error.Some?)
            && r.error != Some(QuotaExceeded)
    decreases |buf|
  {
    if Decode(buf).Complete? {
      var Complete(f, n) := Decode(buf);
      EncodeDecoded(buf);
      HandleErrors(env, s, f);
      if HandleFrame(env, s, f).1.None? {
        ProcessError(env, HandleFrame(env, s, f).0, buf[n..]);
      }
    }
  }
}
