/** The rate limit as a bound on what a connection dispatches. */
module Throughput {
  import opened Bytes
  import opened Clock
  import opened Frames
  import opened ConnLimits
  import opened Engine

  /** The clock readings of the calls of Allow numbered `from` up to `to`. */
  function Readings(env: Env, from: nat, to: nat): seq<int>
    requires from <= to
  {
    seq(to - from, i requires 0 <= i < to - from => env.clock(from + i))
  }

  lemma ReadingsSplit(env: Env, from: nat, mid: nat, to: nat)
    requires from <= mid <= to
    ensures Readings(env, from, mid) + Readings(env, mid, to) == Readings(env, from, to)
  {
  }

  /** `after` comes from `before` by calls of Allow with successive readings, each dispatch paid by an admitted call. */
  ghost predicate Metered(env: Env, before: Server, after: Server) {
    before.calls <= after.calls &&
    var times := Readings(env, before.calls, after.calls);
    && after.bucket == RunCalls(before.bucket, times)
    && |before.log| <= |after.log| <= |before.log| + Admitted(before.bucket, times)
  }

  lemma MeteredTrans(env: Env, a: Server, b: Server, c: Server)
    requires Metered(env, a, b) && Metered(env, b, c)
    ensures Metered(env, a, c)
  {
    ReadingsSplit(env, a.calls, b.calls, c.calls);
    RunAppend(a.bucket, Readings(env, a.calls, b.calls), Readings(env, b.calls, c.calls));
  }

  lemma HandleMetered(env: Env, s: Server, f: Frame)
    ensures Metered(env, s, HandleFrame(env, s, f).0)
  {
    var times := Readings(env, s.calls, s.calls + 1);
    assert times == [env.clock(s.calls)] && times[1..] == [];
    assert RunCalls(s.bucket, times) == AfterAllow(s.bucket, env.clock(s.calls));
  }

  lemma {:induction false} ProcessMetered(env: Env, s: Server, buf: seq<byte>)
    ensures Metered(env, s, Process(env, s, buf).server)
    decreases |buf|
  {
    if Decode(buf).Complete? {
      var Complete(f, n) := Decode(buf);
      EncodeDecoded(buf);
      var (s', error) := HandleFrame(env, s, f);
      HandleMetered(env, s, f);
      if error.None? {
        ProcessMetered(env, s', buf[n..]);
        MeteredTrans(env, s, s', Process(env, s', buf[n..]).server);
      }
    } else {
      MeteredRefl(env, s);
    }
  }

  lemma MeteredRefl(env: Env, s: Server)
    ensures Metered(env, s, s)
  {
    assert Readings(env, s.calls, s.calls) == [];
  }

  lemma {:induction false} ServeMetered(env: Env, s: Server, buf: seq<byte>, chunks: seq<seq<byte>>)
    ensures Metered(env, s, Serve(env, s, buf, chunks).server)
    decreases |chunks|
  {
    MeteredRefl(env, s);
    if chunks != [] && |buf| + |chunks[0]| <= MAX_BUFFER {
      var r := Process(env, s, buf + chunks[0]);
      ProcessMetered(env, s, buf + chunks[0]);
      if r.error.None? {
        ServeMetered(env, r.server, r.rest, chunks[1..]);
        MeteredTrans(env, s, r.server, Serve(env, r.server, r.rest, chunks[1..]).server);
      }
    }
  }

  /**
   The calls read times between `start` and `end`, and either each is in int64 range of the
   refill before it, or the clock is ordered and products may overflow.
   */
  ghost predicate ReadsWithin(env: Env, b: Bucket, from: nat, to: nat, start: int, end: int) {
    from <= to ==>
      && (Schedule(b, Readings(env, from, to)) || Ordered(b, Readings(env, from, to)))
      && forall i: nat :: from <= i < to ==> start <= env.clock(i) <= end
  }

  lemma AdmissionsInTime(b: Bucket, times: seq<int>, start: int, end: int)
    requires Settled(b) && start <= end
    requires Schedule(b, times) || Ordered(b, times)
    requires forall t :: t in times ==> start <= t <= end
    ensures Admitted(b, times) <= b.burst + (end - start) * b.rate / NANOS_PER_SECOND
  {
    if Schedule(b, times) {
      WindowFromSettled(b, times, start, end);
    } else {
      WindowAnyway(b, times, start, end);
    }
  }

  lemma ReadingsIn(env: Env, from: nat, to: nat, start: int, end: int)
    requires from <= to && forall i: nat :: from <= i < to ==> start <= env.clock(i) <= end
    ensures forall t :: t in Readings(env, from, to) ==> start <= t <= end
  {
    var times := Readings(env, from, to);
    forall t | t in times
      ensures start <= t <= end
    {
      var i :| 0 <= i < |times| && times[i] == t;
      assert t == env.clock(from + i);
    }
  }

  lemma AdmissionsWithin(env: Env, b: Bucket, from: nat, to: nat, start: int, end: int)
    requires Settled(b) && start <= end && from <= to && ReadsWithin(env, b, from, to, start, end)
    ensures Admitted(b, Readings(env, from, to)) <= b.burst + (end - start) * b.rate / NANOS_PER_SECOND
  {
    ReadingsIn(env, from, to, start, end);
    AdmissionsInTime(b, Readings(env, from, to), start, end);
  }

  /**
   Whatever a client sends and however it arrives, a connection whose clock readings lie between
   `start` and `end` dispatches at most the burst plus what the rate yields in that time.
   */
  lemma DispatchRate(env: Env, s: Server, buf: seq<byte>, chunks: seq<seq<byte>>, start: int, end: int)
    requires Settled(s.bucket) && start <= end
    requires ReadsWithin(env, s.bucket, s.calls, Serve(env, s, buf, chunks).server.calls, start, end)
    ensures |Serve(env, s, buf, chunks).server.log| - |s.log|
         <= s.bucket.burst + (end - start) * s.bucket.rate / NANOS_PER_SECOND
  {
    ServeMetered(env, s, buf, chunks);
    AdmissionsWithin(env, s.bucket, s.calls, Serve(env, s, buf, chunks).server.calls, start, end);
  }
}
