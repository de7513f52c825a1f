/** The client program's use of its connection (cmd/client/main.go). */
module Client {
  import opened Bytes
  import opened Wrappers
  import opened Frames
  import opened Messages
  import opened Bodies
  import opened Engine
  import opened Conversation
  import opened Connection

  /** Encodes a request and hands it to the connection in a single write. */
  method SendRequest(gz: Gzip, flags: byte, req: Message, wire: Wire) returns (error: Option<ClientError>)
    modifies wire
    ensures match RequestFrame(gz, flags, req)
            case Err(e) => error == Some(e) && wire.out == old(wire.out) && wire.plan == old(wire.plan)
            case Ok(f) =>
              var w := WriteOnce(old(wire.plan), Encoding(f));
              && wire.out == old(wire.out) + w.sent && wire.plan == w.plan
              && error == if w.ok then None else Some(RequestNotSent)
  {
    var msgBytes := EncodeMessage(req);
    var body := EncodeFrameBody(gz, flags, msgBytes);
    if body.Err? {
      return Some(BodyRefused(body.error));
    }
    var frameBytes := Encode(Frame(0, flags, body.value));
    if frameBytes.None? {
      return Some(RequestPanic);
    }
    var n, ok := wire.Write(frameBytes.value);
    return if ok then None else Some(RequestNotSent);
  }

  /** Reads until a whole frame has arrived; `chunks` are what the reads return before they fail. */
  method ReadResponse(gz: Gzip, chunks: seq<seq<byte>>) returns (r: Result<Message, ClientError>)
    ensures r == AwaitReply(gz, [], chunks)
  {
    var buf: seq<byte> := [];
    var i := 0;
    while i < |chunks|
      invariant i <= |chunks| && Decode(buf) == Incomplete
      invariant AwaitReply(gz, [], chunks) == AwaitReply(gz, buf, chunks[i..])
    {
      var n := |chunks[i]|;
      if n > 0 {
        buf := buf + chunks[i];
        match Decode(buf) {
          case Invalid(e) => return Err(FrameRefused(e));
          case Complete(f, _) => return ReadReply(gz, f);
          case Incomplete =>
        }
      } else {
        assert buf + chunks[i] == buf;
      }
      i := i + 1;
    }
    return Err(ReadFailed);
  }
}
