/** The outcome of a connection depends on the bytes it receives, not on how reads split them. */
module Streams {
  import opened Bytes
  import opened Wrappers
  import opened Clock
  import opened Sequences
  import opened Frames
  import opened ConnLimits
  import opened Engine

  lemma ProcessUnfold(env: Env, s: Server, buf: seq<byte>)
    requires Decode(buf).Complete?
    ensures var Complete(f, n) := Decode(buf); var (s', error) := HandleFrame(env, s, f);
            && 0 < n <= |buf|
            && Process(env, s, buf) == if error.Some? then Outcome(s', buf, error) else Process(env, s', buf[n..])
  {
    EncodeDecoded(buf);
  }

  ghost predicate ProcessedAlike(env: Env, s: Server, buf: seq<byte>, more: seq<byte>) {
    var first, all := Process(env, s, buf), Process(env, s, buf + more);
    if first.error.Some? then all.server == first.server && all.error == first.error
    else all == Process(env, first.server, first.rest + more)
  }

  lemma ProcessFirst(env: Env, s: Server, buf: seq<byte>, f: Frame, n: nat, rest: seq<byte>)
    requires Decode(buf) == Complete(f, n) && n <= |buf| && rest == buf[n..]
    ensures var (s', error) := HandleFrame(env, s, f);
            Process(env, s, buf) == if error.Some? then Outcome(s', buf, error) else Process(env, s', rest)
  {
  }

  lemma AlikeStep(env: Env, s: Server, buf: seq<byte>, more: seq<byte>, f: Frame, n: nat)
    requires Decode(buf) == Complete(f, n) && n <= |buf|
    requires HandleFrame(env, s, f).1.None? ==>
               ProcessedAlike(env, HandleFrame(env, s, f).0, buf[n..], more)
    ensures ProcessedAlike(env, s, buf, more)
  {
    DecodeStable(buf, more);
    DropFront(buf, more, n);
    ProcessFirst(env, s, buf, f, n, buf[n..]);
    ProcessFirst(env, s, buf + more, f, n, buf[n..] + more);
  }

  /** Processing a buffer and later what was left of it plus more is processing everything at once. */
  lemma {:induction false} ProcessAppend(env: Env, s: Server, buf: seq<byte>, more: seq<byte>)
    ensures var first, all := Process(env, s, buf), Process(env, s, buf + more);
            if first.error.Some? then all.server == first.server && all.error == first.error
            else all == Process(env, first.server, first.rest + more)
    decreases |buf|
  {
    if Decode(buf) != Incomplete {
      DecodeStable(buf, more);
      if Decode(buf).Complete? {
        ProcessUnfold(env, s, buf);
        ProcessAppend(env, HandleFrame(env, s, Decode(buf).frame).0, buf[Decode(buf).consumed..], more);
        AlikeStep(env, s, buf, more, Decode(buf).frame, Decode(buf).consumed);
      }
    }
  }

  /** What is left is the end of the buffer, and without an error it holds no complete frame. */
  lemma {:induction false} ProcessRest(env: Env, s: Server, buf: seq<byte>)
    ensures var r := Process(env, s, buf);
            && |r.rest| <= |buf| && r.rest == buf[|buf| - |r.rest|..]
            && (r.error.None? ==> Decode(r.rest) == Incomplete)
    decreases |buf|
  {
    if Decode(buf).Complete? {
      var Complete(f, n) := Decode(buf);
      EncodeDecoded(buf);
      var (s', error) := HandleFrame(env, s, f);
      if error.None? {
        ProcessRest(env, s', buf[n..]);
      }
    }
  }

  lemma HandleWithinQuota(env: Env, s: Server, f: Frame)
    ensures HandleFrame(env, s, f).1 != Some(QuotaExceeded)
  {
  }

  lemma {:induction false} ProcessWithinQuota(env: Env, s: Server, buf: seq<byte>)
    ensures Process(env, s, buf).error != Some(QuotaExceeded)
    decreases |buf|
  {
    if Decode(buf).Complete? {
      var Complete(f, n) := Decode(buf);
      EncodeDecoded(buf);
      HandleWithinQuota(env, s, f);
      ProcessWithinQuota(env, HandleFrame(env, s, f).0, buf[n..]);
    }
  }

  lemma ConcatFirst(buf: seq<byte>, chunks: seq<seq<byte>>)
    requires chunks != []
    ensures buf + Concat(chunks) == (buf + chunks[0]) + Concat(chunks[1..])
  {
  }

  /**
   Unless the quota refuses a read, the connection loop ends exactly as one pass over the
   concatenated stream: same dispatches, same bytes written, same error and, without an
   error, a buffer that is exactly the unparsed suffix.
   */
  lemma {:induction false} ServeIsProcess(env: Env, s: Server, buf: seq<byte>, chunks: seq<seq<byte>>)
    requires Decode(buf) == Incomplete
    requires Serve(env, s, buf, chunks).error != Some(QuotaExceeded)
    ensures var r, once := Serve(env, s, buf, chunks), Process(env, s, buf + Concat(chunks));
            && r.server == once.server && r.error == once.error
            && (r.error.None? ==> r.rest == once.rest)
    decreases |chunks|
  {
    if chunks == [] {
      assert buf + Concat(chunks) == buf;
    } else {
      var first := Process(env, s, buf + chunks[0]);
      ConcatFirst(buf, chunks);
      ProcessAppend(env, s, buf + chunks[0], Concat(chunks[1..]));
      if first.error.None? {
        ProcessRest(env, s, buf + chunks[0]);
        ServeIsProcess(env, first.server, first.rest, chunks[1..]);
      }
    }
  }

  /** A server without the state of its rate limiter, the only part that depends on the clock. */
  function Visible(s: Server): Server {
    s.(bucket := Bucket(0, 0, 0, 0))
  }

  lemma HandleVisible(a: Env, b: Env, s: Server, t: Server, f: Frame)
    requires a.gz == b.gz && a.handlers == b.handlers && Visible(s) == Visible(t)
    requires HandleFrame(a, s, f).1 != Some(RateLimited) && HandleFrame(b, t, f).1 != Some(RateLimited)
    ensures Visible(HandleFrame(a, s, f).0) == Visible(HandleFrame(b, t, f).0)
    ensures HandleFrame(a, s, f).1 == HandleFrame(b, t, f).1
  {
    assert Accepted(a, s, f) == Accepted(b, t, f);
  }

  lemma {:induction false} ClockIrrelevant(a: Env, b: Env, s: Server, t: Server, buf: seq<byte>)
    requires a.gz == b.gz && a.handlers == b.handlers && Visible(s) == Visible(t)
    requires Process(a, s, buf).error != Some(RateLimited) && Process(b, t, buf).error != Some(RateLimited)
    ensures var p, q := Process(a, s, buf), Process(b, t, buf);
            Visible(p.server) == Visible(q.server) && p.rest == q.rest && p.error == q.error
    decreases |buf|
  {
    if Decode(buf).Complete? {
      var Complete(f, n) := Decode(buf);
      EncodeDecoded(buf);
      HandleVisible(a, b, s, t, f);
      var (s', error) := HandleFrame(a, s, f);
      if error.None? {
        ClockIrrelevant(a, b, s', HandleFrame(b, t, f).0, buf[n..]);
      }
    }
  }

  /**
   Chunking independence: two connections that receive the same bytes, split by reads in
   different ways and at different times, end alike as long as neither the quota nor the
   rate limiter refuses anything.
   */
  lemma ChunkingIndependent(a: Env, b: Env, s: Server, t: Server, chunks: seq<seq<byte>>, others: seq<seq<byte>>)
    requires a.gz == b.gz && a.handlers == b.handlers && Visible(s) == Visible(t)
    requires Concat(chunks) == Concat(others)
    requires Serve(a, s, [], chunks).error !in {Some(QuotaExceeded), Some(RateLimited)}
    requires Serve(b, t, [], others).error !in {Some(QuotaExceeded), Some(RateLimited)}
    ensures var p, q := Serve(a, s, [], chunks), Serve(b, t, [], others);
            && Visible(p.server) == Visible(q.server) && p.error == q.error
            && (p.error.None? ==> p.rest == q.rest)
  {
    ServeIsProcess(a, s, [], chunks);
    ServeIsProcess(b, t, [], others);
    ClockIrrelevant(a, b, s, t, [] + Concat(chunks));
  }

  // ----- the buffer quota -----

  const READ_SIZE := 4 * 1024

  /** The largest frame, header included, that can be received under every chunking. */
  const SAFE_FRAME := MAX_BUFFER - READ_SIZE + 1

  /** The limits in numbers. */
  lemma Limits()
    ensures MAX_BUFFER == 262_144 && READ_SIZE == 4_096 && SAFE_FRAME == 258_049 && MAX_BODY == 1_048_576
    ensures TWO_63 == 9_223_372_036_854_775_808 && TWO_64 == 2 * TWO_63 && NANOS_PER_SECOND == 1_000_000_000
  {
  }

  ghost predicate ReadSized(chunks: seq<seq<byte>>) {
    forall i :: 0 <= i < |chunks| ==> |chunks[i]| <= READ_SIZE
  }

  /** Every frame of the stream, a last incomplete one included, takes at most `limit` bytes. */
  predicate FramesWithin(buf: seq<byte>, limit: nat)
    decreases |buf|
  {
    match Decode(buf)
    case Incomplete => Announced(buf) <= limit
    case Invalid(_) => true
    case Complete(_, n) =>
      EncodeDecoded(buf);
      n <= limit && FramesWithin(buf[n..], limit)
  }

  lemma IncompleteShort(buf: seq<byte>, more: seq<byte>, limit: nat)
    requires Decode(buf) == Incomplete && FramesWithin(buf + more, limit) && HEADER_LEN <= limit
    ensures |buf| < limit
  {
    if HEADER_LEN <= |buf| {
      assert (buf + more)[0..2] == buf[0..2] && (buf + more)[4..8] == buf[4..8];
    }
  }

  lemma FramesWithinNext(buf: seq<byte>, more: seq<byte>, limit: nat)
    requires FramesWithin(buf + more, limit) && Decode(buf).Complete?
    ensures var n := Decode(buf).consumed; 0 < n <= |buf| && FramesWithin(buf[n..] + more, limit)
  {
    DecodeStable(buf, more);
    EncodeDecoded(buf);
    var n := Decode(buf).consumed;
    assert (buf + more)[n..] == buf[n..] + more;
  }

  lemma {:induction false} ProcessWithin(env: Env, s: Server, buf: seq<byte>, more: seq<byte>, limit: nat)
    requires FramesWithin(buf + more, limit) && Process(env, s, buf).error.None?
    ensures FramesWithin(Process(env, s, buf).rest + more, limit)
    decreases |buf|
  {
    if Decode(buf).Complete? {
      FramesWithinNext(buf, more, limit);
      var Complete(f, n) := Decode(buf);
      ProcessWithin(env, HandleFrame(env, s, f).0, buf[n..], more, limit);
    }
  }

  /** No stream of frames of at most SAFE_FRAME bytes ever trips the quota, however it is read. */
  lemma {:induction false} QuotaNeverTrips(env: Env, s: Server, buf: seq<byte>, chunks: seq<seq<byte>>)
    requires Decode(buf) == Incomplete && ReadSized(chunks)
    requires FramesWithin(buf + Concat(chunks), SAFE_FRAME)
    ensures Serve(env, s, buf, chunks).error != Some(QuotaExceeded)
    decreases |chunks|
  {
    if chunks != [] {
      IncompleteShort(buf, Concat(chunks), SAFE_FRAME);
      var first := Process(env, s, buf + chunks[0]);
      ProcessRest(env, s, buf + chunks[0]);
      ProcessWithinQuota(env, s, buf + chunks[0]);
      if first.error.None? {
        ConcatFirst(buf, chunks);
        ProcessWithin(env, s, buf + chunks[0], Concat(chunks[1..]), SAFE_FRAME);
        QuotaNeverTrips(env, first.server, first.rest, chunks[1..]);
      }
    }
  }

  /** Reads that are as full as possible. */
  function FullReads(data: seq<byte>): (chunks: seq<seq<byte>>)
    ensures Concat(chunks) == data && ReadSized(chunks)
    decreases |data|
  {
    if data == [] then []
    else if |data| <= READ_SIZE then
      assert Concat([data]) == data + Concat([data][1..]);
      [data]
    else
      var rest := FullReads(data[READ_SIZE..]);
      assert ([data[..READ_SIZE]] + rest)[1..] == rest;
      [data[..READ_SIZE]] + rest
  }

  lemma {:induction false} ConcatAppend(chunks: seq<seq<byte>>, others: seq<seq<byte>>)
    ensures Concat(chunks + others) == Concat(chunks) + Concat(others)
    decreases |chunks|
  {
    if chunks == [] {
      assert chunks + others == others;
    } else {
      assert (chunks + others)[1..] == chunks[1..] + others;
      ConcatAppend(chunks[1..], others);
    }
  }

  /** While a frame is incomplete the loop only stores bytes, or stops because of the quota. */
  lemma {:induction false} AccumulatesFrame(
      env: Env, s: Server, f: Frame, buf: seq<byte>, chunks: seq<seq<byte>>, later: seq<seq<byte>>)
    requires f.version <= 1 && |f.body| <= MAX_BODY
    requires buf + Concat(chunks) <= Encoding(f) && |buf + Concat(chunks)| < |Encoding(f)|
    ensures Serve(env, s, buf, chunks + later) == Serve(env, s, buf + Concat(chunks), later)
         || Serve(env, s, buf, chunks + later).error == Some(QuotaExceeded)
    decreases |chunks|
  {
    if chunks == [] {
      assert buf + Concat(chunks) == buf && chunks + later == later;
    } else {
      ConcatFirst(buf, chunks);
      assert (chunks + later)[1..] == chunks[1..] + later;
      var buf' := buf + chunks[0];
      assert buf' == Encoding(f)[..|buf'|];
      StrictPrefixIncomplete(f, |buf'|);
      AccumulatesFrame(env, s, f, buf', chunks[1..], later);
    }
  }

  /** Reads that stop one byte before the end of `wire` and then take that byte and as much of `more` as fits. */
  lemma WorstReads(wire: seq<byte>, more: seq<byte>)
      returns (head: seq<seq<byte>>, last: seq<byte>, tail: seq<seq<byte>>)
    requires wire != [] && |more| >= READ_SIZE - 1
    ensures Concat(head) == wire[..|wire| - 1] && |last| == READ_SIZE
    ensures ReadSized(head + ([last] + tail)) && Concat(head + ([last] + tail)) == wire + more
  {
    var k := |wire| - 1;
    head, tail := FullReads(wire[..k]), FullReads(more[READ_SIZE - 1..]);
    last := wire[k..] + more[..READ_SIZE - 1];
    SplitInside(wire, more, k, READ_SIZE - 1);
    ConcatAppend(head, [last] + tail);
    assert ([last] + tail)[1..] == tail;
  }

  /**
   SAFE_FRAME is sharp: any larger frame, followed by enough bytes to fill its last read, is
   refused under some split into reads.
   */
  lemma QuotaTrips(env: Env, s: Server, f: Frame, more: seq<byte>) returns (chunks: seq<seq<byte>>)
    requires f.version <= 1 && |f.body| <= MAX_BODY
    requires |Encoding(f)| > SAFE_FRAME && |more| >= READ_SIZE - 1
    ensures ReadSized(chunks) && Concat(chunks) == Encoding(f) + more
    ensures Serve(env, s, [], chunks).error == Some(QuotaExceeded)
  {
    var head, last, tail := WorstReads(Encoding(f), more);
    chunks := head + ([last] + tail);
    assert [] + Concat(head) == Concat(head);
    AccumulatesFrame(env, s, f, [], head, [last] + tail);
  }

  lemma {:induction false} FramesWithinMonotone(buf: seq<byte>, small: nat, large: nat)
    requires small <= large && FramesWithin(buf, small)
    ensures FramesWithin(buf, large)
    decreases |buf|
  {
    if Decode(buf).Complete? {
      EncodeDecoded(buf);
      FramesWithinMonotone(buf[Decode(buf).consumed..], small, large);
    }
  }

  /** No stream whose frames take at most `limit` bytes trips the quota, whatever the reads. */
  ghost predicate LimitSafe(env: Env, s: Server, limit: nat) {
    forall chunks :: ReadSized(chunks) && FramesWithin(Concat(chunks), limit) ==>
      Serve(env, s, [], chunks).error != Some(QuotaExceeded)
  }

  function ZeroFrame(total: nat): Frame
    requires HEADER_LEN <= total
  {
    Frame(1, 0, seq(total - HEADER_LEN, _ => 0))
  }

  lemma ZeroFrames(first: nat, second: nat)
    requires HEADER_LEN <= first <= MAX_BODY && HEADER_LEN <= second <= first
    ensures FramesWithin(Encoding(ZeroFrame(first)) + Encoding(ZeroFrame(second)), first)
  {
    var f, g := ZeroFrame(first), ZeroFrame(second);
    DecodeEncoding(f, Encoding(g));
    DecodeEncoding(g, []);
    assert (Encoding(f) + Encoding(g))[first..] == Encoding(g);
    assert Encoding(g) + [] == Encoding(g);
    assert Encoding(g)[second..] == [];
  }

  /** The frame sizes that the quota lets through under every chunking are exactly those up to SAFE_FRAME. */
  lemma SafeFrameExact(env: Env, s: Server, limit: nat)
    ensures LimitSafe(env, s, limit) <==> limit <= SAFE_FRAME
  {
    if limit <= SAFE_FRAME {
      forall chunks | ReadSized(chunks) && FramesWithin(Concat(chunks), limit)
        ensures Serve(env, s, [], chunks).error != Some(QuotaExceeded)
      {
        FramesWithinMonotone(Concat(chunks), limit, SAFE_FRAME);
        assert [] + Concat(chunks) == Concat(chunks);
        QuotaNeverTrips(env, s, [], chunks);
      }
    } else {
      var f, g := ZeroFrame(SAFE_FRAME + 1), ZeroFrame(READ_SIZE);
      ZeroFrames(SAFE_FRAME + 1, READ_SIZE);
      var chunks := QuotaTrips(env, s, f, Encoding(g));
      FramesWithinMonotone(Concat(chunks), SAFE_FRAME + 1, limit);
      assert ReadSized(chunks) && FramesWithin(Concat(chunks), limit);
    }
  }

  /** Every dispatched frame fits in the buffer. */
  predicate LogFits(log: seq<Exchange>) {
    forall i :: 0 <= i < |log| ==> HEADER_LEN + |log[i].request.body| <= MAX_BUFFER
  }

  lemma {:induction false} ProcessFits(env: Env, s: Server, buf: seq<byte>)
    requires LogFits(s.log) && |buf| <= MAX_BUFFER
    ensures LogFits(Process(env, s, buf).server.log)
    decreases |buf|
  {
    if Decode(buf).Complete? {
      var Complete(f, n) := Decode(buf);
      EncodeDecoded(buf);
      ProcessFits(env, HandleFrame(env, s, f).0, buf[n..]);
    }
  }

  /** While the loop runs the buffer stays within the quota, and no larger frame is ever dispatched. */
  lemma {:induction false} ServeFits(env: Env, s: Server, buf: seq<byte>, chunks: seq<seq<byte>>)
    requires LogFits(s.log) && |buf| <= MAX_BUFFER
    ensures var r := Serve(env, s, buf, chunks);
            |r.rest| <= MAX_BUFFER && LogFits(r.server.log)
    decreases |chunks|
  {
    if chunks != [] && |buf| + |chunks[0]| <= MAX_BUFFER {
      ProcessFits(env, s, buf + chunks[0]);
      ProcessRest(env, s, buf + chunks[0]);
      var r := Process(env, s, buf + chunks[0]);
      ServeFits(env, r.server, r.rest, chunks[1..]);
    }
  }

  /**
   A frame the codec accepts but the buffer cannot hold blocks the connection: whatever
   follows it and however it is read, nothing is dispatched or written.
   */
  lemma {:induction false} OversizedBlocks(
      env: Env, s: Server, f: Frame, more: seq<byte>, buf: seq<byte>, chunks: seq<seq<byte>>)
    requires f.version <= 1 && |f.body| <= MAX_BODY && |Encoding(f)| > MAX_BUFFER
    requires |buf| <= MAX_BUFFER && buf + Concat(chunks) <= Encoding(f) + more
    ensures var r := Serve(env, s, buf, chunks);
            && r.server == s
            && r.error == if |buf + Concat(chunks)| <= MAX_BUFFER then None else Some(QuotaExceeded)
    decreases |chunks|
  {
    if chunks != [] {
      ConcatFirst(buf, chunks);
      if |buf| + |chunks[0]| <= MAX_BUFFER {
        var buf' := buf + chunks[0];
        assert buf' == (Encoding(f) + more)[..|buf'|] == Encoding(f)[..|buf'|];
        StrictPrefixIncomplete(f, |buf'|);
        OversizedBlocks(env, s, f, more, buf', chunks[1..]);
      }
    }
  }
}
