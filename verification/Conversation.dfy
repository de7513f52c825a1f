/** What the server writes for a stream of requests, and what the client (cmd/client/main.go) makes of it. */
module Conversation {
  import opened Bytes
  import opened Wrappers
  import opened Sequences
  import opened Frames
  import opened Messages
  import opened Bodies
  import opened ConnLimits
  import opened Engine
  import opened Streams
  import opened Dispatch

  // ----- the server's output -----

  /** The frames answering one exchange: none for a one-way request or a silent handler, else one. */
  function ResponsesTo(gz: Gzip, e: Exchange): seq<Frame> {
    if e.reply.Answer? && !OneWay(e.request.flags)
    then [ResponseFrame(gz, e.request, e.message, e.reply.message).(version := 1)]
    else []
  }

  function Responses(gz: Gzip, log: seq<Exchange>): seq<Frame> {
    if log == [] then [] else ResponsesTo(gz, log[0]) + Responses(gz, log[1..])
  }

  function Requests(log: seq<Exchange>): seq<Frame> {
    seq(|log|, i requires 0 <= i < |log| => log[i].request)
  }

  /** A response is compressed iff its request was and carries no other flag; the client reads the answer back. */
  lemma ResponseReadable(gz: Gzip, request: Frame, message: Message, answer: Message)
    requires gz.Lawful()
    ensures var f := ResponseFrame(gz, request, message, answer);
            && (Compressed(f.flags) <==> Compressed(request.flags))
            && !Encrypted(f.flags) && !OneWay(f.flags) && f.flags <= 1
            && ReadReply(gz, f) ==
               if Compressed(request.flags) && |MessageBytes(answer)| > MAX_BODY
               then Err(BodyRefused(InflatedTooLarge))
               else Ok(answer.(requestId := if answer.requestId != 0 then answer.requestId else message.requestId))
  {
    var filled := FillRequestId(answer, message);
    BodyRoundTrip(gz, 0, request.flags % 2, MessageBytes(filled));
    DecodeMessageBytes(filled);
  }

  lemma EncodeAllOne(f: Frame)
    ensures EncodeAll([f.(version := 1)]) == Encoding(f.(version := 0))
  {
    var one := [f.(version := 1)];
    assert one[1..] == [];
    assert EncodeAll(one) == Encoding(one[0]) + EncodeAll([]);
  }

  lemma RespondOutput(gz: Gzip, s: Server, e: Exchange)
    requires Respond(gz, s, e).1.None?
    ensures var s' := Respond(gz, s, e).0;
            s'.log == s.log && s'.out == s.out + EncodeAll(ResponsesTo(gz, e)) && Sendable(ResponsesTo(gz, e))
  {
    if e.reply.Answer? && !OneWay(e.request.flags) {
      EncodeAllOne(ResponseFrame(gz, e.request, e.message, e.reply.message));
    }
  }

  lemma {:induction false} EncodeAllAppend(fs: seq<Frame>, gs: seq<Frame>)
    ensures EncodeAll(fs + gs) == EncodeAll(fs) + EncodeAll(gs)
    decreases |fs|
  {
    if fs == [] {
      assert fs + gs == gs;
    } else {
      assert (fs + gs)[1..] == fs[1..] + gs;
      EncodeAllAppend(fs[1..], gs);
    }
  }

  /** `added` is what a stretch of the stream added to the log, and `frames` the frames of that stretch. */
  ghost predicate Answered(gz: Gzip, before: Server, after: Server, added: seq<Exchange>, frames: seq<Frame>) {
    && after.log == before.log + added && Requests(added) == frames
    && Sendable(Responses(gz, added)) && after.out == before.out + EncodeAll(Responses(gz, added))
  }

  lemma RequestsCons(e: Exchange, added: seq<Exchange>)
    ensures Requests([e] + added) == [e.request] + Requests(added)
  {
  }

  lemma ResponsesCons(gz: Gzip, e: Exchange, added: seq<Exchange>)
    requires Sendable(ResponsesTo(gz, e)) && Sendable(Responses(gz, added))
    ensures var all := Responses(gz, [e] + added);
            Sendable(all) && EncodeAll(all) == EncodeAll(ResponsesTo(gz, e)) + EncodeAll(Responses(gz, added))
  {
    assert ([e] + added)[1..] == added;
    EncodeAllAppend(ResponsesTo(gz, e), Responses(gz, added));
  }

  lemma AnsweredCons(gz: Gzip, a: Server, b: Server, c: Server, e: Exchange, added: seq<Exchange>, frames: seq<Frame>)
    requires b.log == a.log + [e] && b.out == a.out + EncodeAll(ResponsesTo(gz, e)) && Sendable(ResponsesTo(gz, e))
    requires Answered(gz, b, c, added, frames)
    ensures Answered(gz, a, c, [e] + added, [e.request] + frames)
  {
    RequestsCons(e, added);
    ResponsesCons(gz, e, added);
    AppendAssoc(a.log, [e], added);
    AppendAssoc(a.out, EncodeAll(ResponsesTo(gz, e)), EncodeAll(Responses(gz, added)));
  }

  lemma {:induction false} ProcessOutput(env: Env, s: Server, buf: seq<byte>) returns (added: seq<Exchange>)
    requires Process(env, s, buf).error.None?
    ensures Answered(env.gz, s, Process(env, s, buf).server, added, ParseAll(buf).frames)
    ensures Process(env, s, buf).rest == ParseAll(buf).rest && ParseAll(buf).error.None?
    decreases |buf|
  {
    if Decode(buf).Complete? {
      var Complete(f, n) := Decode(buf);
      EncodeDecoded(buf);
      var e := Accepted(env, s, f).value;
      var s' := HandleFrame(env, s, f).0;
      RespondOutput(env.gz, s.(bucket := s'.bucket, calls := s.calls + 1, log := s.log + [e]), e);
      added := ProcessOutput(env, s', buf[n..]);
      AnsweredCons(env.gz, s, s', Process(env, s, buf).server, e, added, ParseAll(buf[n..]).frames);
      added := [e] + added;
    } else {
      added := [];
    }
  }

  /**
   On a fresh connection that ends without an error, the dispatched frames are the frames of
   the received stream in order, and what was written parses to exactly one response for each
   of them that is not one-way and got an answer, in the same order.
   */
  lemma ServerOutput(env: Env, s: Server, chunks: seq<seq<byte>>)
    requires s.log == [] && s.out == [] && Serve(env, s, [], chunks).error.None?
    ensures var r, stream := Serve(env, s, [], chunks), ParseAll(Concat(chunks));
            && stream.error.None? && r.rest == stream.rest
            && Requests(r.server.log) == stream.frames
            && ParseAll(r.server.out) == Parsed(Responses(env.gz, r.server.log), [], None)
  {
    ServeIsProcess(env, s, [], chunks);
    assert [] + Concat(chunks) == Concat(chunks);
    var added := ProcessOutput(env, s, Concat(chunks));
    var r := Serve(env, s, [], chunks);
    assert r.server.log == added;
    ParseEncodings(Responses(env.gz, added), []);
    assert EncodeAll(Responses(env.gz, added)) + [] == r.server.out;
  }

  // ----- the order of dispatch -----

  lemma HandleLog(env: Env, s: Server, f: Frame) returns (added: seq<Exchange>)
    ensures var (s', error) := HandleFrame(env, s, f);
            && s'.log == s.log + added && Requests(added) <= [f]
            && (error.None? ==> Requests(added) == [f])
  {
    var log := HandleFrame(env, s, f).0.log;
    if Admits(s.bucket, env.clock(s.calls)) && Accepted(env, s, f).Ok? {
      added := [Accepted(env, s, f).value];
    } else {
      added := [];
      assert s.log + [] == s.log;
    }
  }

  lemma {:induction false} ProcessLog(env: Env, s: Server, buf: seq<byte>) returns (added: seq<Exchange>)
    ensures var r, p := Process(env, s, buf), ParseAll(buf);
            && r.server.log == s.log + added && Requests(added) <= p.frames
            && (r.error.None? ==> Requests(added) == p.frames && r.rest == p.rest && p.error.None?)
    decreases |buf|
  {
    if Decode(buf).Complete? {
      var Complete(f, n) := Decode(buf);
      EncodeDecoded(buf);
      var (s', error) := HandleFrame(env, s, f);
      var first := HandleLog(env, s, f);
      added := first;
      if error.None? {
        var rest := ProcessLog(env, s', buf[n..]);
        AppendAssoc(s.log, first, rest);
        RequestsAppend(first, rest);
        added := first + rest;
      }
    } else {
      added := [];
      assert s.log + [] == s.log;
    }
  }

  lemma RequestsAppend(xs: seq<Exchange>, ys: seq<Exchange>)
    ensures Requests(xs + ys) == Requests(xs) + Requests(ys)
  {
  }

  /**
   For every run, ended by whatever error or none: the dispatched frames are the first frames
   of the received stream, in order, each dispatched once.
   */
  lemma {:induction false} DispatchOrder(env: Env, s: Server, buf: seq<byte>, chunks: seq<seq<byte>>)
      returns (added: seq<Exchange>)
    ensures Serve(env, s, buf, chunks).server.log == s.log + added
    ensures Requests(added) <= ParseAll(buf + Concat(chunks)).frames
    decreases |chunks|
  {
    if chunks == [] || |buf| + |chunks[0]| > MAX_BUFFER {
      added := [];
      assert s.log + [] == s.log;
    } else {
      var data, more := buf + chunks[0], Concat(chunks[1..]);
      var first := ProcessLog(env, s, data);
      ConcatFirst(buf, chunks);
      ParseAppend(data, more);
      added := first;
      var r := Process(env, s, data);
      if r.error.None? {
        var rest := DispatchOrder(env, r.server, r.rest, chunks[1..]);
        AppendAssoc(s.log, first, rest);
        RequestsAppend(first, rest);
        added := first + rest;
      }
    }
  }

  // ----- the output, however the connection ends -----

  /** The frame answering an exchange is too large to encode. */
  ghost predicate Unencodable(responses: seq<Frame>) {
    |responses| == 1 && |responses[0].body| > MAX_BODY
  }

  /**
   How a connection can stop at an exchange already dispatched: `last` is that exchange and
   `partial` what was written of its response.
   */
  ghost predicate Cut(gz: Gzip, error: Option<ConnError>, last: Option<Exchange>, partial: seq<byte>) {
    match last
    case None => partial == [] && error !in {Some(HandlerFailed), Some(EncodePanic), Some(WriteFailed)}
    case Some(e) =>
      var responses := ResponsesTo(gz, e);
      || (error == Some(HandlerFailed) && partial == [] && e.reply.Failure?)
      || (error == Some(EncodePanic) && partial == [] && Unencodable(responses))
      || (error == Some(WriteFailed) && |responses| == 1 && Sendable(responses) && partial <= EncodeAll(responses))
  }

  function Opt<T>(o: Option<T>): seq<T> {
    if o.Some? then [o.value] else []
  }

  /** What a connection has done when it ends: it completed `done`, then stopped within `last`. */
  datatype Ending = Ending(done: seq<Exchange>, last: Option<Exchange>, partial: seq<byte>)

  ghost predicate Ended(gz: Gzip, before: Server, r: Outcome, end: Ending) {
    && r.server.log == before.log + (end.done + Opt(end.last))
    && Sendable(Responses(gz, end.done))
    && r.server.out == before.out + (EncodeAll(Responses(gz, end.done)) + end.partial)
    && Cut(gz, r.error, end.last, end.partial)
  }

  /** `b` is `a` after the exchanges `done`, each completed. */
  ghost predicate Completed(gz: Gzip, a: Server, b: Server, done: seq<Exchange>) {
    && b.log == a.log + done && Sendable(Responses(gz, done))
    && b.out == a.out + EncodeAll(Responses(gz, done))
  }

  lemma {:induction false} ResponsesAppend(gz: Gzip, xs: seq<Exchange>, ys: seq<Exchange>)
    ensures Responses(gz, xs + ys) == Responses(gz, xs) + Responses(gz, ys)
    decreases |xs|
  {
    if xs == [] {
      assert xs + ys == ys;
    } else {
      assert (xs + ys)[1..] == xs[1..] + ys;
      ResponsesAppend(gz, xs[1..], ys);
      AppendAssoc(ResponsesTo(gz, xs[0]), Responses(gz, xs[1..]), Responses(gz, ys));
    }
  }

  lemma EndedAfter(gz: Gzip, a: Server, b: Server, r: Outcome, first: seq<Exchange>, end: Ending)
    requires Completed(gz, a, b, first) && Ended(gz, b, r, end)
    ensures Ended(gz, a, r, end.(done := first + end.done))
  {
    var xs, ys := Responses(gz, first), Responses(gz, end.done);
    ResponsesAppend(gz, first, end.done);
    EncodeAllAppend(xs, ys);
    AppendAssoc(first, end.done, Opt(end.last));
    AppendAssoc(a.log, first, end.done + Opt(end.last));
    AppendAssoc(EncodeAll(xs), EncodeAll(ys), end.partial);
    AppendAssoc(a.out, EncodeAll(xs), EncodeAll(ys) + end.partial);
  }

  lemma EndedCompletes(gz: Gzip, s: Server, r: Outcome, end: Ending)
    requires Ended(gz, s, r, end) && r.error.None?
    ensures Completed(gz, s, r.server, end.done)
  {
    assert end.done + Opt(end.last) == end.done;
    assert EncodeAll(Responses(gz, end.done)) + end.partial == EncodeAll(Responses(gz, end.done));
  }

  lemma CompletedOne(gz: Gzip, a: Server, b: Server, e: Exchange)
    requires b.log == a.log + [e] && b.out == a.out + EncodeAll(ResponsesTo(gz, e)) && Sendable(ResponsesTo(gz, e))
    ensures Completed(gz, a, b, [e])
  {
    assert [e][1..] == [];
    assert Responses(gz, [e]) == ResponsesTo(gz, e) + [] == ResponsesTo(gz, e);
  }

  lemma EndedNow(gz: Gzip, s: Server, r: Outcome)
    requires r.server.log == s.log && r.server.out == s.out && Cut(gz, r.error, None, [])
    ensures Ended(gz, s, r, Ending([], None, []))
  {
    assert EncodeAll(Responses(gz, [])) == [];
    assert s.log + [] == s.log && s.out + [] == s.out;
  }

  /** A response that is not completed is cut. */
  lemma RespondCut(gz: Gzip, s: Server, e: Exchange) returns (partial: seq<byte>)
    requires Respond(gz, s, e).1.Some?
    ensures var (s', error) := Respond(gz, s, e);
            s'.log == s.log && s'.out == s.out + partial && Cut(gz, error, Some(e), partial)
  {
    partial := [];
    assert s.out + [] == s.out;
    if e.reply.Answer? && !OneWay(e.request.flags) {
      var f := ResponseFrame(gz, e.request, e.message, e.reply.message);
      if |f.body| <= MAX_BODY {
        EncodeAllOne(f);
        partial := WriteAll(s.plan, Encoding(f)).sent;
      }
    }
  }

  lemma HandleEnding(env: Env, s: Server, f: Frame, rest: seq<byte>) returns (end: Ending)
    ensures var (s', error) := HandleFrame(env, s, f); Ended(env.gz, s, Outcome(s', rest, error), end)
  {
    var (s', error) := HandleFrame(env, s, f);
    if !Admits(s.bucket, env.clock(s.calls)) || Accepted(env, s, f).Err? {
      EndedNow(env.gz, s, Outcome(s', rest, error));
      end := Ending([], None, []);
    } else {
      var e := Accepted(env, s, f).value;
      var mid := s.(bucket := s'.bucket, calls := s.calls + 1, log := s.log + [e]);
      if error.None? {
        RespondOutput(env.gz, mid, e);
        CompletedOne(env.gz, s, s', e);
        EndedNow(env.gz, s', Outcome(s', rest, None));
        EndedAfter(env.gz, s, s', Outcome(s', rest, None), [e], Ending([], None, []));
        end := Ending([e] + [], None, []);
      } else {
        var partial := RespondCut(env.gz, mid, e);
        assert [] + Opt(Some(e)) == [e];
        assert EncodeAll(Responses(env.gz, [])) + partial == partial;
        end := Ending([], Some(e), partial);
      }
    }
  }

  lemma {:induction false} ProcessEnding(env: Env, s: Server, buf: seq<byte>) returns (end: Ending)
    ensures Ended(env.gz, s, Process(env, s, buf), end)
    decreases |buf|
  {
    var r := Process(env, s, buf);
    if Decode(buf).Complete? {
      var Complete(f, n) := Decode(buf);
      EncodeDecoded(buf);
      var (s', error) := HandleFrame(env, s, f);
      end := HandleEnding(env, s, f, r.rest);
      if error.None? {
        EndedCompletes(env.gz, s, Outcome(s', r.rest, None), end);
        var later := ProcessEnding(env, s', buf[n..]);
        EndedAfter(env.gz, s, s', r, end.done, later);
        end := later.(done := end.done + later.done);
      }
    } else {
      EndedNow(env.gz, s, r);
      end := Ending([], None, []);
    }
  }

  lemma {:induction false} ServeEnding(env: Env, s: Server, buf: seq<byte>, chunks: seq<seq<byte>>)
      returns (end: Ending)
    ensures Ended(env.gz, s, Serve(env, s, buf, chunks), end)
    decreases |chunks|
  {
    if chunks == [] || |buf| + |chunks[0]| > MAX_BUFFER {
      EndedNow(env.gz, s, Serve(env, s, buf, chunks));
      end := Ending([], None, []);
    } else {
      var r := Process(env, s, buf + chunks[0]);
      end := ProcessEnding(env, s, buf + chunks[0]);
      if r.error.None? {
        EndedCompletes(env.gz, s, r, end);
        var later := ServeEnding(env, r.server, r.rest, chunks[1..]);
        EndedAfter(env.gz, s, r.server, Serve(env, s, buf, chunks), end.done, later);
        end := later.(done := end.done + later.done);
      }
    }
  }

  /**
   For every run, ended by whatever error or none: the server has written the responses to the
   exchanges it completed, in the order of their frames in the stream, and after them at most
   a part of the response at which it stopped. It stops within an exchange exactly when the
   handler failed, the response was too large or the write failed.
   */
  lemma OutputOrder(env: Env, s: Server, buf: seq<byte>, chunks: seq<seq<byte>>) returns (end: Ending)
    ensures Ended(env.gz, s, Serve(env, s, buf, chunks), end)
    ensures Requests(end.done + Opt(end.last)) <= ParseAll(buf + Concat(chunks)).frames
  {
    end := ServeEnding(env, s, buf, chunks);
    var added := DispatchOrder(env, s, buf, chunks);
    AppendCancel(s.log, added, end.done + Opt(end.last));
  }

  /** What a peer that starts with the connection reads from it: a cut response is no frame, and nothing follows it. */
  lemma OutputParses(gz: Gzip, s: Server, r: Outcome, end: Ending)
    requires s.out == [] && Ended(gz, s, r, end)
    ensures var whole := end.partial != [] && end.partial == EncodeAll(ResponsesTo(gz, end.last.value));
            ParseAll(r.server.out) ==
            if whole then Parsed(Responses(gz, end.done) + ResponsesTo(gz, end.last.value), [], None)
            else Parsed(Responses(gz, end.done), end.partial, None)
  {
    var fs := Responses(gz, end.done);
    assert r.server.out == EncodeAll(fs) + end.partial;
    PartialParses(gz, r.error, end.last, end.partial);
    if end.partial != [] && end.partial == EncodeAll(ResponsesTo(gz, end.last.value)) {
      ListThenPart(fs, end.partial, ResponsesTo(gz, end.last.value), []);
    } else {
      ListThenPart(fs, end.partial, [], end.partial);
      assert fs + [] == fs;
    }
  }

  lemma ListThenPart(fs: seq<Frame>, part: seq<byte>, more: seq<Frame>, rest: seq<byte>)
    requires Sendable(fs) && ParseAll(part) == Parsed(more, rest, None)
    ensures ParseAll(EncodeAll(fs) + part) == Parsed(fs + more, rest, None)
  {
    ParseEncodings(fs, part);
  }

  lemma PartialParses(gz: Gzip, error: Option<ConnError>, last: Option<Exchange>, partial: seq<byte>)
    requires Cut(gz, error, last, partial)
    ensures ParseAll(partial) ==
            if partial != [] && partial == EncodeAll(ResponsesTo(gz, last.value))
            then Parsed(ResponsesTo(gz, last.value), [], None) else Parsed([], partial, None)
  {
    if partial != [] {
      PartParses(ResponsesTo(gz, last.value), partial);
    }
  }

  lemma PartParses(responses: seq<Frame>, part: seq<byte>)
    requires |responses| == 1 && Sendable(responses) && part <= EncodeAll(responses)
    ensures ParseAll(part) ==
            if part == EncodeAll(responses) then Parsed(responses, [], None) else Parsed([], part, None)
  {
    var f := responses[0];
    assert responses[1..] == [];
    assert EncodeAll(responses) == Encoding(f) + EncodeAll([]) == Encoding(f);
    if part == Encoding(f) {
      ParseEncodings(responses, []);
      assert EncodeAll(responses) + [] == part && responses + [] == responses;
    } else {
      assert part == Encoding(f)[..|part|];
      StrictPrefixIncomplete(f, |part|);
    }
  }

  // ----- the client -----

  datatype ClientError =
    | FrameRefused(frameError: FrameError) | BodyRefused(bodyError: BodyError) | ReplyTooShort
    | ReadFailed | RequestPanic | RequestNotSent

  /** The frame `sendRequest` writes. */
  function RequestFrame(gz: Gzip, flags: byte, req: Message): Result<Frame, ClientError> {
    match EncodeFrameBody(gz, flags, MessageBytes(req))
    case Err(e) => Err(BodyRefused(e))
    case Ok(body) => if |body| > MAX_BODY then Err(RequestPanic) else Ok(Frame(0, flags, body))
  }

  /** A request is refused for the encryption bit, then for a body over 1 MiB; else its frame carries it. */
  lemma RequestFrameExactly(gz: Gzip, flags: byte, req: Message)
    requires gz.Lawful()
    ensures var r := RequestFrame(gz, flags, req);
            var body := if flags % 2 == 1 then gz.compress(MessageBytes(req)) else MessageBytes(req);
            if flags / 2 % 2 == 1 then r == Err(BodyRefused(UnsupportedFlags))
            else if |body| > 1_048_576 then r == Err(RequestPanic)
            else
              && r == Ok(Frame(0, flags, body))
              && (Carries(gz, r.value, req) <==> flags % 2 == 0 || |MessageBytes(req)| <= 1_048_576)
  {
    assert gz.inflate(gz.compress(MessageBytes(req))) == Some(MessageBytes(req));
  }

  function ReadReply(gz: Gzip, f: Frame): Result<Message, ClientError> {
    match DecodeFrameBody(gz, f)
    case Err(e) => Err(BodyRefused(e))
    case Ok(body) =>
      match DecodeMessage(body)
      case None => Err(ReplyTooShort)
      case Some(m) => Ok(m)
  }

  /** The reply found in `buf` extended by the reads to come; running out of reads is a read error. */
  function AwaitReply(gz: Gzip, buf: seq<byte>, chunks: seq<seq<byte>>): Result<Message, ClientError>
    decreases |chunks|
  {
    if chunks == [] then Err(ReadFailed)
    else match Decode(buf + chunks[0])
      case Invalid(e) => Err(FrameRefused(e))
      case Complete(f, _) => ReadReply(gz, f)
      case Incomplete => AwaitReply(gz, buf + chunks[0], chunks[1..])
  }

  /** However a response is split, and whatever follows it, the client reads that response. */
  lemma {:induction false} AnyReads(gz: Gzip, f: Frame, more: seq<byte>, buf: seq<byte>, chunks: seq<seq<byte>>)
    requires f.version <= 1 && |f.body| <= MAX_BODY
    requires |buf| < |Encoding(f)| <= |buf + Concat(chunks)| && buf + Concat(chunks) <= Encoding(f) + more
    ensures AwaitReply(gz, buf, chunks) == ReadReply(gz, f)
    decreases |chunks|
  {
    ConcatFirst(buf, chunks);
    var buf', all := buf + chunks[0], Encoding(f) + more;
    assert buf' == all[..|buf'|];
    if |buf'| < |Encoding(f)| {
      assert buf' == Encoding(f)[..|buf'|];
      StrictPrefixIncomplete(f, |buf'|);
      AnyReads(gz, f, more, buf', chunks[1..]);
    } else {
      assert buf' == Encoding(f) + buf'[|Encoding(f)|..];
      DecodeEncoding(f, buf'[|Encoding(f)|..]);
    }
  }

  /** The client's answer depends on the bytes that arrive, not on how reads split them. */
  lemma {:induction false} AwaitDecodes(gz: Gzip, buf: seq<byte>, chunks: seq<seq<byte>>)
    requires Decode(buf) == Incomplete
    ensures AwaitReply(gz, buf, chunks) ==
            match Decode(buf + Concat(chunks))
            case Incomplete => Err(ReadFailed)
            case Invalid(e) => Err(FrameRefused(e))
            case Complete(f, _) => ReadReply(gz, f)
    decreases |chunks|
  {
    if chunks == [] {
      assert buf + Concat(chunks) == buf;
    } else {
      ConcatFirst(buf, chunks);
      if Decode(buf + chunks[0]) == Incomplete {
        AwaitDecodes(gz, buf + chunks[0], chunks[1..]);
      } else {
        DecodeStable(buf + chunks[0], Concat(chunks[1..]));
      }
    }
  }

  /** The client gets a message exactly if what arrived, in whatever reads, starts with a frame that carries it. */
  lemma ReplyExactly(gz: Gzip, chunks: seq<seq<byte>>, m: Message)
    ensures AwaitReply(gz, [], chunks) == Ok(m) <==>
            exists f :: StartsWithFrame(Concat(chunks), f) && Carries(gz, f, m)
  {
    var data := Concat(chunks);
    assert [] + data == data;
    AwaitDecodes(gz, [], chunks);
    if f :| StartsWithFrame(data, f) && Carries(gz, f, m) {
      CompleteExactly(data, f);
      ReadExactly(gz, f, m);
    }
    if Decode(data).Complete? {
      CompleteExactly(data, Decode(data).frame);
      ReadExactly(gz, Decode(data).frame, m);
    }
  }

  lemma ReadExactly(gz: Gzip, f: Frame, m: Message)
    ensures ReadReply(gz, f) == Ok(m) <==> Carries(gz, f, m)
  {
    DecodeMessageBytes(m);
    var content := DecodeFrameBody(gz, f);
    if content.Ok? {
      EncodeDecodedMessage(content.value);
    }
  }

  /** Why a frame gives the client no message, in the order of the checks. */
  lemma ReadErrors(gz: Gzip, f: Frame)
    ensures var r := ReadReply(gz, f);
            if f.flags / 2 % 2 == 1 then r == Err(BodyRefused(UnsupportedFlags))
            else if f.flags % 2 == 1 && gz.inflate(f.body).None? then r == Err(BodyRefused(BadArchive))
            else if f.flags % 2 == 1 && |gz.inflate(f.body).value| > 1_048_576
            then r == Err(BodyRefused(InflatedTooLarge))
            else r == Err(ReplyTooShort) <==>
                 |if f.flags % 2 == 1 then gz.inflate(f.body).value else f.body| < 10
  {
  }

  /**
   Every outcome: what the frame gives that the bytes start with; if there is none, a read
   error exactly if the header is not complete or the bytes are a strict prefix of some frame,
   and a frame error otherwise.
   */
  lemma ReplyOutcomes(gz: Gzip, chunks: seq<seq<byte>>)
    ensures var data, r := Concat(chunks), AwaitReply(gz, [], chunks);
            && (forall f :: StartsWithFrame(data, f) ==> r == ReadReply(gz, f))
            && ((forall f :: !StartsWithFrame(data, f)) ==>
                if |data| < 8 || exists f :: StartOfFrame(data, f) then r == Err(ReadFailed)
                else r.Err? && r.error.FrameRefused?)
  {
    var data := Concat(chunks);
    assert [] + data == data;
    AwaitDecodes(gz, [], chunks);
    IncompleteExactly(data);
    forall f | StartsWithFrame(data, f)
      ensures Decode(data) == Complete(f, HEADER_LEN + |f.body|)
    {
      CompleteExactly(data, f);
    }
    if Decode(data).Complete? {
      CompleteExactly(data, Decode(data).frame);
    }
  }

  /** Without a response, as when the server closes the connection, the client reports a read error. */
  lemma NoReply(gz: Gzip, chunks: seq<seq<byte>>)
    requires Concat(chunks) == []
    ensures AwaitReply(gz, [], chunks) == Err(ReadFailed)
  {
    AwaitDecodes(gz, [], chunks);
  }

  // ----- end to end -----

  /** The handler of `BridgeProtocolHandler`: `fn` maps a payload to a payload or fails (`None`). */
  function Bridge(cmd: uint16, fn: (seq<Message>, seq<byte>) -> Option<seq<byte>>): Handler {
    (history: seq<Message>, m: Message) =>
      match fn(history, m.payload)
      case None => Failure
      case Some(out) => Answer(Message(cmd, m.requestId, out))
  }

  /** What the bridged handler answers to `req`; `None` if the function fails. */
  function BridgeAnswer(
      cmd: uint16, fn: (seq<Message>, seq<byte>) -> Option<seq<byte>>, history: seq<Message>, req: Message)
      : Option<Message>
  {
    match fn(history, req.payload)
    case None => None
    case Some(out) => Some(Message(cmd, req.requestId, out))
  }

  /** The conditions under which one bridged request is answered. */
  predicate Deliverable(env: Env, s: Server, flags: byte, req: Message, wire: Frame, answer: Option<Message>) {
    && HEADER_LEN + |wire.body| <= MAX_BUFFER
    && Admits(s.bucket, env.clock(s.calls))
    && (Compressed(flags) ==> |MessageBytes(req)| <= MAX_BODY)
    && answer.Some?
    && var response := ResponseFrame(env.gz, wire, req, answer.value);
       |response.body| <= MAX_BODY && WriteAll(s.plan, Encoding(response)).ok
  }

  lemma FirstFrame(env: Env, s: Server, f: Frame)
    requires f.version <= 1 && |f.body| <= MAX_BODY
    ensures var (s', error) := HandleFrame(env, s, f.(version := 1));
            var r := Process(env, s, Encoding(f)); r.server == s' && r.error == error
  {
    DecodeEncoding(f, []);
    assert Encoding(f) + [] == Encoding(f);
    assert Encoding(f)[|Encoding(f)|..] == [];
  }

  lemma RequestAccepted(
      env: Env, s: Server, flags: byte, req: Message, wire: Frame, cmd: uint16,
      fn: (seq<Message>, seq<byte>) -> Option<seq<byte>>)
    requires env.gz.Lawful() && RequestFrame(env.gz, flags, req) == Ok(wire)
    requires req.command in env.handlers && env.handlers[req.command] == Bridge(cmd, fn)
    ensures var answer := BridgeAnswer(cmd, fn, Dispatched(s.log), req);
            var reply := if answer.None? then Failure else Answer(answer.value);
            Accepted(env, s, wire.(version := 1)) ==
              if Compressed(flags) && |MessageBytes(req)| > MAX_BODY then Err(BadBody(InflatedTooLarge))
              else Ok(Exchange(wire.(version := 1), req, reply))
  {
    BodyRoundTrip(env.gz, 1, flags, MessageBytes(req));
    DecodeMessageBytes(req);
    assert env.gz.inflate(env.gz.compress(MessageBytes(req))) == Some(MessageBytes(req));
  }

  lemma RequestHandled(
      env: Env, s: Server, flags: byte, req: Message, wire: Frame, cmd: uint16,
      fn: (seq<Message>, seq<byte>) -> Option<seq<byte>>)
    requires env.gz.Lawful() && !OneWay(flags) && RequestFrame(env.gz, flags, req) == Ok(wire)
    requires req.command in env.handlers && env.handlers[req.command] == Bridge(cmd, fn)
    requires HEADER_LEN + |wire.body| <= MAX_BUFFER
    ensures var answer := BridgeAnswer(cmd, fn, Dispatched(s.log), req);
            var (s', error) := HandleFrame(env, s, wire.(version := 1));
            && (error.None? <==> Deliverable(env, s, flags, req, wire, answer))
            && (error.None? ==> s'.out == s.out + Encoding(ResponseFrame(env.gz, wire, req, answer.value)))
  {
    RequestAccepted(env, s, flags, req, wire, cmd, fn);
  }

  /** The client reads the answer from any split of its encoding, unless it inflates to more than 1 MiB. */
  lemma ReplyRead(gz: Gzip, request: Frame, req: Message, answer: Message, replies: seq<seq<byte>>)
    requires gz.Lawful() && answer.requestId == req.requestId
    requires |ResponseFrame(gz, request, req, answer).body| <= MAX_BODY
    requires Concat(replies) == Encoding(ResponseFrame(gz, request, req, answer))
    ensures AwaitReply(gz, [], replies) ==
            if Compressed(request.flags) && |MessageBytes(answer)| > MAX_BODY then Err(BodyRefused(InflatedTooLarge))
            else Ok(answer)
  {
    var response := ResponseFrame(gz, request, req, answer);
    assert [] + Concat(replies) == Encoding(response) + [];
    AnyReads(gz, response, [], [], replies);
    ResponseReadable(gz, request, req, answer);
  }

  lemma OnlyFrame(env: Env, s: Server, f: Frame, chunks: seq<seq<byte>>)
    requires f.version <= 1 && |f.body| <= MAX_BODY && Concat(chunks) == Encoding(f)
    ensures var r, (s', error) := Serve(env, s, [], chunks), HandleFrame(env, s, f.(version := 1));
            if HEADER_LEN + |f.body| > MAX_BUFFER then r.error == Some(QuotaExceeded)
            else r.server == s' && r.error == error
  {
    assert [] + Concat(chunks) == Encoding(f) == Encoding(f) + [];
    if HEADER_LEN + |f.body| > MAX_BUFFER {
      OversizedBlocks(env, s, f, [], [], chunks);
    } else {
      SmallStream(env, s, [], chunks);
      ServeIsProcess(env, s, [], chunks);
      FirstFrame(env, s, f);
    }
  }

  /**
   One request through a bridged handler, split into reads in any way: the connection ends
   without an error exactly when the listed conditions hold, and it has then written one response.
   */
  lemma RequestServed(
      env: Env, s: Server, flags: byte, req: Message, wire: Frame, cmd: uint16,
      fn: (seq<Message>, seq<byte>) -> Option<seq<byte>>, chunks: seq<seq<byte>>)
    requires env.gz.Lawful() && !OneWay(flags) && RequestFrame(env.gz, flags, req) == Ok(wire)
    requires req.command in env.handlers && env.handlers[req.command] == Bridge(cmd, fn)
    requires Concat(chunks) == Encoding(wire)
    ensures var answer, r := BridgeAnswer(cmd, fn, Dispatched(s.log), req), Serve(env, s, [], chunks);
            && (r.error.None? <==> Deliverable(env, s, flags, req, wire, answer))
            && (r.error.None? ==> r.server.out == s.out + Encoding(ResponseFrame(env.gz, wire, req, answer.value)))
  {
    OnlyFrame(env, s, wire, chunks);
    if HEADER_LEN + |wire.body| <= MAX_BUFFER {
      RequestHandled(env, s, flags, req, wire, cmd, fn);
    }
  }

  lemma ServedAnswer(
      env: Env, s: Server, flags: byte, req: Message, wire: Frame, cmd: uint16,
      fn: (seq<Message>, seq<byte>) -> Option<seq<byte>>, chunks: seq<seq<byte>>, replies: seq<seq<byte>>)
      returns (answer: Message)
    requires env.gz.Lawful() && !OneWay(flags) && RequestFrame(env.gz, flags, req) == Ok(wire)
    requires req.command in env.handlers && env.handlers[req.command] == Bridge(cmd, fn)
    requires Concat(chunks) == Encoding(wire)
    requires Serve(env, s, [], chunks).error.None? && Serve(env, s, [], chunks).server.out == s.out + Concat(replies)
    ensures BridgeAnswer(cmd, fn, Dispatched(s.log), req) == Some(answer)
    ensures wire.flags == flags && |ResponseFrame(env.gz, wire, req, answer).body| <= MAX_BODY
    ensures Concat(replies) == Encoding(ResponseFrame(env.gz, wire, req, answer))
  {
    RequestServed(env, s, flags, req, wire, cmd, fn, chunks);
    answer := BridgeAnswer(cmd, fn, Dispatched(s.log), req).value;
    AppendCancel(s.out, Encoding(ResponseFrame(env.gz, wire, req, answer)), Concat(replies));
  }

  /**
   End to end: whatever the reads on both sides, the client of a request served without an
   error gets the registered command, its own request ID and the payload the bridged function
   returned, exactly if the answer is not compressed or inflates to at most 1 MiB; it gets an
   error for the body otherwise.
   */
  lemma AnswerReceived(
      env: Env, s: Server, flags: byte, req: Message, wire: Frame, cmd: uint16,
      fn: (seq<Message>, seq<byte>) -> Option<seq<byte>>, chunks: seq<seq<byte>>, replies: seq<seq<byte>>)
    requires env.gz.Lawful() && !OneWay(flags) && RequestFrame(env.gz, flags, req) == Ok(wire)
    requires req.command in env.handlers && env.handlers[req.command] == Bridge(cmd, fn)
    requires Concat(chunks) == Encoding(wire)
    requires Serve(env, s, [], chunks).error.None? && Serve(env, s, [], chunks).server.out == s.out + Concat(replies)
    ensures var payload := fn(Dispatched(s.log), req.payload);
            && payload.Some?
            && AwaitReply(env.gz, [], replies) ==
               if Compressed(flags) && MESSAGE_HEADER_LEN + |payload.value| > MAX_BODY
               then Err(BodyRefused(InflatedTooLarge))
               else Ok(Message(cmd, req.requestId, payload.value))
  {
    var answer := ServedAnswer(env, s, flags, req, wire, cmd, fn, chunks, replies);
    ReplyRead(env.gz, wire, req, answer, replies);
  }

  lemma {:induction false} SmallStream(env: Env, s: Server, buf: seq<byte>, chunks: seq<seq<byte>>)
    requires |buf + Concat(chunks)| <= MAX_BUFFER
    ensures Serve(env, s, buf, chunks).error != Some(QuotaExceeded)
    decreases |chunks|
  {
    if chunks != [] {
      ConcatFirst(buf, chunks);
      var r := Process(env, s, buf + chunks[0]);
      ProcessRest(env, s, buf + chunks[0]);
      ProcessWithinQuota(env, s, buf + chunks[0]);
      if r.error.None? {
        SmallStream(env, r.server, r.rest, chunks[1..]);
      }
    }
  }
}
