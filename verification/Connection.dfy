/** The connection loop as the program runs it, on mutable state (conn_handler.go, router.go). */
module Connection {
  import opened Bytes
  import opened Wrappers
  import opened Frames
  import opened Messages
  import opened Bodies
  import opened ConnLimits
  import opened Engine
  import opened Sequences
  import opened Streams

  /** The receive buffer: a slice `data[..len]` of an array that grows on append and is compacted in place. */
  class ByteBuffer {
    var data: array<byte>
    var len: nat

    ghost predicate Valid()
      reads this
    {
      len <= data.Length
    }

    ghost function Contents(): seq<byte>
      requires Valid()
      reads this, data
    {
      data[..len]
    }

    constructor (capacity: nat)
      ensures Valid() && fresh(data) && Contents() == []
    {
      data := new byte[capacity];
      len := 0;
    }

    method Append(chunk: seq<byte>)
      requires Valid()
      modifies this, data
      ensures Valid() && (data == old(data) || fresh(data))
      ensures Contents() == old(Contents()) + chunk
    {
      if data.Length < len + |chunk| {
        var grown := new byte[2 * (len + |chunk|)];
        forall i | 0 <= i < len {
          grown[i] := data[i];
        }
        data := grown;
      }
      assert data[..len] == old(Contents());
      forall i | 0 <= i < |chunk| {
        data[len + i] := chunk[i];
      }
      len := len + |chunk|;
      assert data[..len] == old(Contents()) + chunk;
    }

    /** Moves what follows the first `consumed` bytes to the front of the same array. */
    method Compact(consumed: nat)
      requires Valid() && consumed <= len
      modifies this, data
      ensures Valid() && data == old(data)
      ensures Contents() == old(Contents())[consumed..]
    {
      ghost var before := data[..];
      var i := 0;
      while i < len - consumed
        invariant i <= len - consumed && len == old(len) && data == old(data)
        invariant forall j :: 0 <= j < i ==> data[j] == before[consumed + j]
        invariant forall j :: i <= j < data.Length ==> data[j] == before[j]
      {
        data[i] := data[i + consumed];
        i := i + 1;
      }
      assert data[..i] == before[consumed..len];
      len := len - consumed;
    }
  }

  ghost function Prefixed(sent: seq<byte>, w: Written): Written {
    w.(sent := sent + w.sent)
  }

  lemma WriteStepUnfold(plan: seq<WriteStep>, rest: seq<byte>, sent: seq<byte>)
    requires rest != []
    ensures var first := WriteOnce(plan, rest);
            Prefixed(sent, Engine.WriteAll(plan, rest)) ==
            if first.ok then Prefixed(sent + first.sent, Engine.WriteAll(first.plan, rest[|first.sent|..]))
            else first.(sent := sent + first.sent)
  {
    var first := WriteOnce(plan, rest);
    if first.ok {
      AppendAssoc(sent, first.sent, Engine.WriteAll(first.plan, rest[|first.sent|..]).sent);
    }
  }

  /** The write side of the network connection. */
  class Wire {
    var plan: seq<WriteStep>
    var out: seq<byte>

    constructor (plan: seq<WriteStep>)
      ensures this.plan == plan && out == []
    {
      this.plan, out := plan, [];
    }

    method Write(data: seq<byte>) returns (n: nat, ok: bool)
      requires data != []
      modifies this
      ensures n <= |data|
      ensures WriteOnce(old(plan), data) == Written(ok, data[..n], plan)
      ensures out == old(out) + data[..n]
    {
      var w := WriteOnce(plan, data);
      n, ok := |w.sent|, w.ok;
      plan, out := w.plan, out + w.sent;
    }

    /** Repeats `Write` on what is left until all is sent or a write fails. */
    method WriteAll(data: seq<byte>) returns (ok: bool)
      modifies this
      ensures var w := Engine.WriteAll(old(plan), data);
              ok == w.ok && plan == w.plan && out == old(out) + w.sent
    {
      var rest := data;
      ghost var sent := [];
      while rest != []
        invariant out == old(out) + sent
        invariant Engine.WriteAll(old(plan), data) == Prefixed(sent, Engine.WriteAll(plan, rest))
        decreases |rest|
      {
        ghost var before := plan;
        var n, accepted := Write(rest);
        WriteStepUnfold(before, rest, sent);
        AppendAssoc(old(out), sent, rest[..n]);
        sent := sent + rest[..n];
        if !accepted {
          return false;
        }
        rest := rest[n..];
      }
      assert sent + [] == sent;
      return true;
    }
  }

  /** The in-process command table. */
  class Router {
    var handlers: map<uint16, Handler>

    constructor ()
      ensures handlers == map[]
    {
      handlers := map[];
    }

    method Register(cmd: uint16, h: Handler)
      modifies this
      ensures handlers == old(handlers)[cmd := h]
    {
      handlers := handlers[cmd := h];
    }

    /** `None` is the "unknown command" error. */
    method Dispatch(history: seq<Message>, m: Message) returns (reply: Option<Reply>)
      ensures reply == if m.command in handlers then Some(handlers[m.command](history, m)) else None
    {
      if m.command !in handlers {
        return None;
      }
      var h := handlers[m.command];
      return Some(h(history, m));
    }
  }

  /** The state of one connection and the methods that serve it. */
  class ConnHandler {
    const gz: Gzip
    const clock: nat -> int
    const router: Router
    const wire: Wire
    const cc: ConnContext
    const buf: ByteBuffer
    var calls: nat
    var log: seq<Exchange>

    ghost predicate Valid()
      reads this, buf, cc
    {
      buf.Valid() && cc.maxBuffer == MAX_BUFFER && cc.bufferUsed == buf.len <= MAX_BUFFER
    }

    ghost function Environment(): Env
      reads router
    {
      Env(gz, router.handlers, clock)
    }

    ghost function State(): Server
      reads this, cc, wire
    {
      Server(cc.Limiter(), calls, log, wire.plan, wire.out)
    }

    constructor (gz: Gzip, clock: nat -> int, router: Router, wire: Wire, now: int)
      ensures Valid() && fresh(cc) && fresh(buf) && fresh(buf.data) && buf.Contents() == []
      ensures this.gz == gz && this.clock == clock && this.router == router && this.wire == wire
      ensures State() == Server(Bucket(100, now, 100, 200), 0, [], wire.plan, wire.out)
    {
      this.gz, this.clock, this.router, this.wire := gz, clock, router, wire;
      cc := new ConnContext(now);
      buf := new ByteBuffer(8 * 1024);
      calls, log := 0, [];
    }

    method HandleFrame(frame: Frame) returns (error: Option<ConnError>)
      modifies this, cc`tokens, cc`lastRefill, wire
      ensures (State(), error) == Engine.HandleFrame(Environment(), old(State()), frame)
    {
      var oneWay := OneWay(frame.flags);
      var now := clock(calls);
      calls := calls + 1;
      var allowed := cc.Allow(now);
      if !allowed {
        return Some(RateLimited);
      }
      var body := DecodeFrameBody(gz, frame);
      if body.Err? {
        return Some(BadBody(body.error));
      }
      var msg := DecodeMessage(body.value);
      if msg.None? {
        return Some(MessageTooShort);
      }
      var reply := router.Dispatch(Dispatched(log), msg.value);
      if reply.None? {
        return Some(UnknownCommand(msg.value.command));
      }
      log := log + [Exchange(frame, msg.value, reply.value)];
      if reply.value.Failure? {
        return Some(HandlerFailed);
      }
      if oneWay || reply.value.Silent? {
        return None;
      }
      error := Answer(frame, msg.value, reply.value.message);
    }

    /** Encodes a response and writes it out. */
    method Answer(request: Frame, msg: Message, answer: Message) returns (error: Option<ConnError>)
      modifies wire
      ensures (State(), error) == Send(old(State()), ResponseFrame(gz, request, msg, answer))
    {
      var out := EncodeResponse(request, msg, answer);
      if out.None? {
        return Some(EncodePanic);
      }
      var sent := wire.WriteAll(out.value);
      return if sent then None else Some(WriteFailed);
    }

    method EncodeResponse(request: Frame, msg: Message, answer: Message) returns (out: Option<seq<byte>>)
      ensures var f := ResponseFrame(gz, request, msg, answer);
              out == if |f.body| > MAX_BODY then None else Some(Encoding(f))
    {
      var resp := answer;
      if resp.requestId == 0 {
        resp := resp.(requestId := msg.requestId);
      }
      var respBytes := EncodeMessage(resp);
      var outFlags := request.flags % 2;
      var outBody := EncodeFrameBody(gz, outFlags, respBytes);
      out := Encode(Frame(0, outFlags, outBody.value));
    }

    /** Charges and stores what one read returned. */
    method ReadIntoBuffer(chunk: seq<byte>) returns (error: Option<ConnError>)
      requires Valid() && |chunk| <= READ_SIZE
      modifies cc`bufferUsed, buf, buf.data
      ensures buf.Valid() && (buf.data == old(buf.data) || fresh(buf.data)) && State() == old(State())
      ensures error == if old(buf.len) + |chunk| <= MAX_BUFFER then None else Some(QuotaExceeded)
      ensures error.None? ==> Valid() && buf.Contents() == old(buf.Contents()) + chunk
    {
      var n := |chunk|;
      if n > 0 {
        var ok := cc.Reserve(n);
        if !ok {
          return Some(QuotaExceeded);
        }
        buf.Append(chunk);
        assert buf.len == |buf.Contents()|;
      } else {
        assert buf.Contents() + chunk == buf.Contents();
      }
      return None;
    }

    /** Handles every complete frame in the buffer; without an error exactly the unparsed suffix stays in it. */
    method ProcessBufferedFrames() returns (error: Option<ConnError>)
      requires Valid()
      modifies this, cc, wire, buf, buf.data
      ensures Valid() && buf.data == old(buf.data)
      ensures var r := Process(Environment(), old(State()), old(buf.Contents()));
              State() == r.server && error == r.error && (error.None? ==> buf.Contents() == r.rest)
    {
      var consumed;
      error, consumed := HandleFrames();
      if error.Some? {
        return error;
      }
      if consumed > 0 {
        Discard(consumed);
      } else {
        assert buf.Contents()[0..] == buf.Contents();
      }
      return None;
    }

    /** The loop over the frames of the buffer, which itself stays as it is. */
    method HandleFrames() returns (error: Option<ConnError>, consumed: nat)
      requires Valid()
      modifies this, cc`tokens, cc`lastRefill, wire
      ensures var r := Process(Environment(), old(State()), buf.Contents());
              && State() == r.server && error == r.error
              && (error.None? ==> consumed <= buf.len && buf.Contents()[consumed..] == r.rest)
    {
      ghost var env, all := Environment(), buf.Contents();
      ghost var goal := Process(env, State(), all);
      consumed := 0;
      assert all[0..] == all;
      while true
        invariant consumed <= buf.len && goal == Process(env, State(), all[consumed..])
        decreases buf.len - consumed
      {
        var frameLen;
        ghost var before, rest := State(), all[consumed..];
        error, frameLen := HandleNext(consumed);
        if error.Some? {
          return;
        }
        if frameLen == 0 {
          return;
        }
        assert Process(env, before, rest) == Process(env, State(), rest[frameLen..]);
        assert rest[frameLen..] == all[consumed + frameLen..];
        consumed := consumed + frameLen;
      }
    }

    /** Decodes and handles the frame that starts at `consumed`; a length of 0 means it is not complete. */
    method HandleNext(consumed: nat) returns (error: Option<ConnError>, frameLen: nat)
      requires Valid() && consumed <= buf.len
      modifies this, cc`tokens, cc`lastRefill, wire
      ensures var env, rest := Environment(), buf.Contents()[consumed..];
              var r := Process(env, old(State()), rest);
              && (error.Some? ==> r.server == State() && r.error == error)
              && (error.None? && frameLen == 0 ==> r == Outcome(State(), rest, None))
              && (error.None? && frameLen > 0 ==> frameLen <= |rest| && r == Process(env, State(), rest[frameLen..]))
    {
      ghost var rest := buf.Contents()[consumed..];
      assert buf.data[consumed..buf.len] == rest;
      var d := Decode(buf.data[consumed..buf.len]);
      if d.Invalid? {
        return Some(BadFrame(d.error)), 0;
      }
      if d.Incomplete? {
        return None, 0;
      }
      ProcessUnfold(Environment(), State(), rest);
      error := HandleFrame(d.frame);
      return error, d.consumed;
    }

    /** Releases the quota of the consumed bytes and moves the unparsed suffix to the front. */
    method Discard(consumed: nat)
      requires Valid() && consumed <= buf.len
      modifies cc`bufferUsed, buf, buf.data
      ensures Valid() && buf.data == old(buf.data) && State() == old(State())
      ensures buf.Contents() == old(buf.Contents())[consumed..]
    {
      cc.Release(consumed);
      buf.Compact(consumed);
      assert buf.len == |buf.Contents()|;
    }

    /** The loop of `handleConn`, over the chunks the reads return until EOF; EOF is not an error. */
    method HandleConn(chunks: seq<seq<byte>>) returns (error: Option<ConnError>)
      requires Valid() && ReadSized(chunks)
      modifies this, cc, wire, buf, buf.data
      ensures var r := Serve(Environment(), old(State()), old(buf.Contents()), chunks);
              State() == r.server && error == r.error
              && (error.None? ==> Valid() && buf.Contents() == r.rest)
    {
      var i := 0;
      ghost var env := Environment();
      while i < |chunks|
        invariant i <= |chunks| && Valid() && Environment() == env
        invariant buf.data == old(buf.data) || fresh(buf.data)
        invariant Serve(env, old(State()), old(buf.Contents()), chunks)
               == Serve(env, State(), buf.Contents(), chunks[i..])
      {
        ghost var before := buf.Contents();
        error := ReadIntoBuffer(chunks[i]);
        if error.Some? {
          return error;
        }
        error := ProcessBufferedFrames();
        if error.Some? {
          return error;
        }
        assert chunks[i..][1..] == chunks[i + 1..];
        i := i + 1;
      }
      return None;
    }
  }
}
