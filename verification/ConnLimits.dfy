/** The per-connection byte quota and token bucket (conn_ctx.go). */
module ConnLimits {
  import opened Clock

  const TWO_63 := 0x8000_0000_0000_0000
  const TWO_64 := 0x1_0000_0000_0000_0000
  const MAX_BUFFER := 256 * 1024

  /** The value an int64 holds after an arithmetic operation whose exact result is `x`. */
  function Wrap64(x: int): (r: int)
    ensures -TWO_63 <= r < TWO_63
    ensures r == x <==> -TWO_63 <= x < TWO_63
  {
    (x + TWO_63) % TWO_64 - TWO_63
  }

  /** Division of the source language: the quotient is truncated toward zero. */
  function TruncDiv(x: int, d: int): int
    requires d > 0
  {
    if x >= 0 then x / d else -((-x) / d)
  }

  datatype Bucket = Bucket(tokens: int, lastRefill: int, rate: int, burst: int)

  /** Tokens a call at time `now` adds, in int64 arithmetic. */
  function Credit(b: Bucket, now: int): int {
    TruncDiv(Wrap64(Wrap64(now - b.lastRefill) * b.rate), NANOS_PER_SECOND)
  }

  function Refill(b: Bucket, now: int): Bucket {
    var add := Credit(b, now);
    if add > 0 then
      var newTokens := Wrap64(b.tokens + add);
      b.(tokens := if newTokens > b.burst then b.burst else newTokens, lastRefill := now)
    else b
  }

  function Take(b: Bucket): Bucket {
    if b.tokens <= 0 then b else b.(tokens := b.tokens - 1)
  }

  /** The bucket after one call of `Allow` that reads the clock as `now`. */
  function AfterAllow(b: Bucket, now: int): Bucket {
    Take(Refill(b, now))
  }

  /** The verdict of that call. */
  predicate Admits(b: Bucket, now: int) {
    Refill(b, now).tokens > 0
  }

  class ConnContext {
    var bufferUsed: int
    var maxBuffer: int
    var tokens: int
    var lastRefill: int
    var rate: int
    var burst: int

    constructor (now: int)
      ensures bufferUsed == 0 && maxBuffer == MAX_BUFFER
      ensures Limiter() == Bucket(100, now, 100, 200)
    {
      bufferUsed, maxBuffer := 0, MAX_BUFFER;
      tokens, lastRefill, rate, burst := 100, now, 100, 200;
    }

    ghost function Limiter(): Bucket
      reads this
    {
      Bucket(tokens, lastRefill, rate, burst)
    }

    /** Charges the bytes even when it refuses them. */
    method Reserve(n: nat) returns (ok: bool)
      modifies this`bufferUsed
      ensures bufferUsed == Wrap64(old(bufferUsed) + n)
      ensures ok <==> bufferUsed <= maxBuffer
    {
      bufferUsed := Wrap64(bufferUsed + n);
      return bufferUsed <= maxBuffer;
    }

    method Release(n: nat)
      modifies this`bufferUsed
      ensures bufferUsed == Wrap64(old(bufferUsed) - n)
    {
      bufferUsed := Wrap64(bufferUsed - n);
    }

    /** `now` is the clock reading the call starts with. */
    method Allow(now: int) returns (ok: bool)
      modifies this`tokens, this`lastRefill
      ensures Limiter() == AfterAllow(old(Limiter()), now)
      ensures ok == Admits(old(Limiter()), now)
    {
      var elapsed := Wrap64(now - lastRefill);
      var add := TruncDiv(Wrap64(elapsed * rate), NANOS_PER_SECOND);
      if add > 0 {
        var newTokens := Wrap64(tokens + add);
        if newTokens > burst {
          newTokens := burst;
        }
        tokens := newTokens;
        lastRefill := now;
      }
      if tokens <= 0 {
        return false;
      }
      tokens := tokens - 1;
      return true;
    }
  }

  // ----- int64 range -----

  /** Neither the elapsed time nor its product with the rate leaves the int64 range in this call. */
  predicate InRange(b: Bucket, now: int) {
    var elapsed := now - b.lastRefill;
    -TWO_63 <= elapsed < TWO_63 && -TWO_63 <= elapsed * b.rate < TWO_63
  }

  lemma WrapTurns(x: int, turns: int)
    ensures Wrap64(x - turns * TWO_64) == Wrap64(x)
  {
  }

  /** Elapsed times beyond the int64 range wrap to the same credit as their exact product. */
  lemma CreditWraps(b: Bucket, now: int)
    ensures Credit(b, now) == TruncDiv(Wrap64((now - b.lastRefill) * b.rate), NANOS_PER_SECOND)
  {
    var elapsed := now - b.lastRefill;
    var turns := (elapsed - Wrap64(elapsed)) / TWO_64;
    assert Wrap64(elapsed) == elapsed - turns * TWO_64;
    assert Wrap64(elapsed) * b.rate == elapsed * b.rate - turns * b.rate * TWO_64;
    WrapTurns(elapsed * b.rate, turns * b.rate);
  }

  /** Dividing a product that left the int64 range never gives the exact quotient. */
  lemma QuotientExact(product: int)
    ensures TruncDiv(Wrap64(product), NANOS_PER_SECOND) == TruncDiv(product, NANOS_PER_SECOND)
            <==> -TWO_63 <= product < TWO_63
  {
    if product >= TWO_63 {
      assert Wrap64(product) <= product - TWO_64;
    } else if product < -TWO_63 {
      assert Wrap64(product) >= product + TWO_64;
    }
  }

  /** The credit is the exact quotient of rate * elapsed precisely while the product fits an int64. */
  lemma CreditExact(b: Bucket, now: int)
    requires b.rate > 0
    ensures Credit(b, now) == TruncDiv((now - b.lastRefill) * b.rate, NANOS_PER_SECOND) <==> InRange(b, now)
  {
    CreditWraps(b, now);
    QuotientExact((now - b.lastRefill) * b.rate);
    ProductGrows(now - b.lastRefill, b.rate);
  }

  lemma ProductGrows(elapsed: int, rate: int)
    requires rate > 0
    ensures if elapsed >= 0 then elapsed <= elapsed * rate else elapsed * rate <= elapsed
  {
  }

  /** After wrapping around, a product worth no token looks worth one, or the other way round. */
  predicate Misjudged(product: int) {
    (product >= NANOS_PER_SECOND) != (Wrap64(product) >= NANOS_PER_SECOND)
  }

  lemma CreditPositive(product: int)
    requires -TWO_63 <= product < TWO_63
    ensures TruncDiv(product, NANOS_PER_SECOND) > 0 <==> product >= NANOS_PER_SECOND
  {
  }

  /**
   The verdict is the one exact arithmetic would give, except precisely when the bucket is
   empty and the product is misjudged: tokens earned by idle time are hidden, or a clock that
   stepped far back earns some.
   */
  lemma VerdictExact(b: Bucket, now: int)
    requires Settled(b)
    ensures var product := (now - b.lastRefill) * b.rate;
            (Admits(b, now) <==> b.tokens > 0 || product >= NANOS_PER_SECOND) <==>
            !(b.tokens == 0 && Misjudged(product))
  {
    var product := (now - b.lastRefill) * b.rate;
    CreditWraps(b, now);
    CreditPositive(Wrap64(product));
    AdmitsByCredit(b, now);
  }

  lemma AdmitsByCredit(b: Bucket, now: int)
    requires Settled(b)
    ensures Admits(b, now) <==> b.tokens > 0 || Credit(b, now) > 0
  {
  }

  /**
   With the default rate of 100, a connection that used up its tokens and then stayed idle
   for 2^63/100 ns is refused.
   */
  lemma OverflowStarves(b: Bucket, now: int)
    requires b.rate == 100 && b.tokens == 0
    requires now - b.lastRefill == TWO_63 / 100 + 1
    ensures !InRange(b, now) && !Admits(b, now) && AfterAllow(b, now) == b
  {
    assert (now - b.lastRefill) * b.rate == TWO_63 + 92;
    assert Wrap64(TWO_63 + 92) == 92 - TWO_63;
  }

  /** With the default limits, a clock that steps back by more than 2^63/100 ns fills an empty bucket. */
  lemma BackwardFills(b: Bucket, now: int)
    requires b == Bucket(0, b.lastRefill, 100, 200)
    requires now - b.lastRefill == -(TWO_63 / 100) - 1
    ensures Admits(b, now) && AfterAllow(b, now) == Bucket(199, now, 100, 200)
  {
    assert (now - b.lastRefill) * b.rate == -TWO_63 - 92;
    assert Wrap64(-TWO_63 - 92) == TWO_63 - 92;
  }

  // ----- runs of calls -----

  function RunCalls(b: Bucket, times: seq<int>): Bucket
    decreases |times|
  {
    if times == [] then b else RunCalls(AfterAllow(b, times[0]), times[1..])
  }

  /** Number of calls admitted by a run. */
  function Admitted(b: Bucket, times: seq<int>): nat
    decreases |times|
  {
    if times == [] then 0
    else (if Admits(b, times[0]) then 1 else 0) + Admitted(AfterAllow(b, times[0]), times[1..])
  }

  lemma {:induction false} RunAppend(b: Bucket, xs: seq<int>, ys: seq<int>)
    ensures RunCalls(b, xs + ys) == RunCalls(RunCalls(b, xs), ys)
    ensures Admitted(b, xs + ys) == Admitted(b, xs) + Admitted(RunCalls(b, xs), ys)
    decreases |xs|
  {
    if xs == [] {
      assert xs + ys == ys;
    } else {
      assert (xs + ys)[1..] == xs[1..] + ys;
      RunAppend(AfterAllow(b, xs[0]), xs[1..], ys);
    }
  }

  /** Tokens credited by the refills of a run, before the cap at `burst`. */
  function Credited(b: Bucket, times: seq<int>): int
    decreases |times|
  {
    if times == [] then 0
    else (if Credit(b, times[0]) > 0 then Credit(b, times[0]) else 0) + Credited(AfterAllow(b, times[0]), times[1..])
  }

  /** What holds between calls. */
  predicate Settled(b: Bucket) {
    0 <= b.tokens < b.burst && b.burst < TWO_63 / 2 && b.rate > 0
  }

  /**
   Every call of the run is in int64 range of the refill before it. The run itself may last
   arbitrarily long, and its clock may step back.
   */
  predicate Schedule(b: Bucket, times: seq<int>)
    decreases |times|
  {
    times != [] ==> InRange(b, times[0]) && Schedule(AfterAllow(b, times[0]), times[1..])
  }

  lemma RateSplit(from: int, mid: int, to: int, rate: int)
    ensures (mid - from) * rate + (to - mid) * rate == (to - from) * rate
  {
  }

  lemma RateMonotone(short: int, long: int, rate: int)
    requires short <= long && rate >= 0
    ensures short * rate <= long * rate
  {
  }

  /** What the time since the last refill is worth, in units of 1e-9 token; nothing if the clock stepped back. */
  function Earned(b: Bucket, now: int): int {
    if now <= b.lastRefill then 0 else (now - b.lastRefill) * b.rate
  }

  /** Tokens a call in range adds before the cap. */
  function Gain(b: Bucket, now: int): int {
    Earned(b, now) / NANOS_PER_SECOND
  }

  lemma GainIsCredit(b: Bucket, now: int)
    requires b.rate > 0 && InRange(b, now)
    ensures Gain(b, now) == (if Credit(b, now) > 0 then Credit(b, now) else 0)
    ensures 0 <= Gain(b, now) < TWO_63 / 2
    ensures Gain(b, now) * NANOS_PER_SECOND <= Earned(b, now) < (Gain(b, now) + 1) * NANOS_PER_SECOND
  {
    var product := (now - b.lastRefill) * b.rate;
    assert Credit(b, now) == TruncDiv(product, NANOS_PER_SECOND);
    if now > b.lastRefill {
      RateMonotone(0, now - b.lastRefill, b.rate);
    } else {
      RateMonotone(now - b.lastRefill, 0, b.rate);
    }
  }

  /** One call: the token balance, the capped refill, and the fraction a refill throws away. */
  lemma CallStep(b: Bucket, now: int)
    requires Settled(b) && InRange(b, now)
    ensures var b', add := AfterAllow(b, now), Gain(b, now);
            && Settled(b') && b'.rate == b.rate && b'.burst == b.burst
            && b'.lastRefill == (if add > 0 then now else b.lastRefill)
            && b'.tokens + (if Admits(b, now) then 1 else 0)
               == (if b.tokens + add > b.burst then b.burst else b.tokens + add)
            && 0 <= add * NANOS_PER_SECOND <= Earned(b, now) < (add + 1) * NANOS_PER_SECOND
            && (Admits(b, now) <==> b.tokens + add > 0)
  {
    GainIsCredit(b, now);
  }

  /** One call as a balance in units of 1e-9 token, for a bucket whose last refill is not after `end`. */
  lemma CallPaid(b: Bucket, now: int, end: int)
    requires Settled(b) && InRange(b, now) && b.lastRefill <= end && now <= end
    ensures var b', n := AfterAllow(b, now), if Admits(b, now) then 1 else 0;
            && b'.lastRefill <= end
            && n * NANOS_PER_SECOND + b'.tokens * NANOS_PER_SECOND + (end - b'.lastRefill) * b'.rate
               <= b.tokens * NANOS_PER_SECOND + (end - b.lastRefill) * b.rate
  {
    CallStep(b, now);
    RateSplit(b.lastRefill, now, end, b.rate);
  }

  /** Admissions are paid for: the balance at the start plus what the elapsed time earned. */
  lemma {:induction false} AdmittedPaid(b: Bucket, times: seq<int>, end: int)
    requires Settled(b) && Schedule(b, times) && b.lastRefill <= end
    requires forall t :: t in times ==> t <= end
    ensures Admitted(b, times) * NANOS_PER_SECOND <= b.tokens * NANOS_PER_SECOND + (end - b.lastRefill) * b.rate
    decreases |times|
  {
    if times == [] {
      RateMonotone(0, end - b.lastRefill, b.rate);
    } else {
      var b' := AfterAllow(b, times[0]);
      CallStep(b, times[0]);
      assert times[0] in times && forall t :: t in times[1..] ==> t in times;
      CallPaid(b, times[0], end);
      AdmittedPaid(b', times[1..], end);
    }
  }

  /** While the clock stays behind the last refill there is no refill, only the balance. */
  lemma {:induction false} AdmittedBehind(b: Bucket, times: seq<int>)
    requires Settled(b) && Schedule(b, times) && forall t :: t in times ==> t <= b.lastRefill
    ensures Admitted(b, times) <= b.tokens
    decreases |times|
  {
    if times != [] {
      CallStep(b, times[0]);
      assert times[0] in times && forall t :: t in times[1..] ==> t in times;
      AdmittedBehind(AfterAllow(b, times[0]), times[1..]);
    }
  }

  lemma {:induction false} RunSettled(b: Bucket, before: seq<int>, window: seq<int>)
    requires Settled(b) && Schedule(b, before + window)
    ensures var b' := RunCalls(b, before);
            Settled(b') && Schedule(b', window) && b'.rate == b.rate && b'.burst == b.burst
    decreases |before|
  {
    if before == [] {
      assert before + window == window;
    } else {
      var all := before + window;
      assert all[0] == before[0] && all[1..] == before[1..] + window;
      CallStep(b, before[0]);
      RunSettled(AfterAllow(b, before[0]), before[1..], window);
    }
  }

  /**
   The first call of a window: either it refills to at most `burst` tokens, or the time since
   the last refill is worth less than the one token that is missing from the burst.
   */
  lemma FirstPaid(b: Bucket, first: int, start: int, end: int)
    requires Settled(b) && InRange(b, first) && start <= first <= end && b.lastRefill <= end
    ensures var b', n := AfterAllow(b, first), if Admits(b, first) then 1 else 0;
            n * NANOS_PER_SECOND + b'.tokens * NANOS_PER_SECOND + (end - b'.lastRefill) * b'.rate
              <= b.burst * NANOS_PER_SECOND + (end - start) * b.rate
  {
    CallStep(b, first);
    if Gain(b, first) > 0 {
      RateMonotone(end - first, end - start, b.rate);
    } else {
      UnpaidStart(b.rate, b.lastRefill, first, start, end);
    }
  }

  lemma UnpaidStart(rate: int, last: int, first: int, start: int, end: int)
    requires start <= first <= end && rate > 0 && (first > last ==> (first - last) * rate < NANOS_PER_SECOND)
    ensures (end - last) * rate <= NANOS_PER_SECOND + (end - start) * rate
  {
    RateSplit(last, first, end, rate);
    RateMonotone(end - first, end - start, rate);
    if first <= last {
      RateMonotone(first - last, 0, rate);
    }
  }

  lemma WindowPaid(b: Bucket, window: seq<int>, start: int, end: int)
    requires Settled(b) && Schedule(b, window) && window != [] && b.lastRefill <= end
    requires forall t :: t in window ==> start <= t <= end
    ensures Admitted(b, window) * NANOS_PER_SECOND <= b.burst * NANOS_PER_SECOND + (end - start) * b.rate
  {
    var b' := AfterAllow(b, window[0]);
    assert window[0] in window && forall t :: t in window[1..] ==> t in window;
    CallStep(b, window[0]);
    FirstPaid(b, window[0], start, end);
    CallPaid(b, window[0], end);
    AdmittedPaid(b', window[1..], end);
  }

  lemma WindowBehind(b: Bucket, window: seq<int>, start: int, end: int)
    requires Settled(b) && Schedule(b, window) && end < b.lastRefill && start <= end
    requires forall t :: t in window ==> start <= t <= end
    ensures Admitted(b, window) * NANOS_PER_SECOND <= b.burst * NANOS_PER_SECOND + (end - start) * b.rate
  {
    AdmittedBehind(b, window);
    RateMonotone(0, end - start, b.rate);
  }

  /**
   The rate limit: after any run of calls, the calls admitted between `start` and `end`
   number at most the burst plus what the rate yields in that time.
   */
  lemma WindowLimit(b: Bucket, before: seq<int>, window: seq<int>, start: int, end: int)
    requires Settled(b) && Schedule(b, before + window)
    requires start <= end && forall t :: t in window ==> start <= t <= end
    ensures Admitted(RunCalls(b, before), window) <= b.burst + (end - start) * b.rate / NANOS_PER_SECOND
  {
    RunSettled(b, before, window);
    WindowFromSettled(RunCalls(b, before), window, start, end);
  }

  lemma WindowFromSettled(b: Bucket, window: seq<int>, start: int, end: int)
    requires Settled(b) && Schedule(b, window)
    requires start <= end && forall t :: t in window ==> start <= t <= end
    ensures Admitted(b, window) <= b.burst + (end - start) * b.rate / NANOS_PER_SECOND
  {
    RateMonotone(0, end - start, b.rate);
    if window != [] {
      if end < b.lastRefill {
        WindowBehind(b, window, start, end);
      } else {
        WindowPaid(b, window, start, end);
      }
    }
    TokenFloor(Admitted(b, window), b.burst, (end - start) * b.rate);
  }

  // ----- the limit under overflow -----

  /** An ordered clock, whose readings are at most 2^63 ns after the refill before them; products may overflow. */
  predicate Ordered(b: Bucket, times: seq<int>)
    decreases |times|
  {
    times != [] ==>
      && 0 <= times[0] - b.lastRefill < TWO_63
      && (|times| > 1 ==> times[0] <= times[1])
      && Ordered(AfterAllow(b, times[0]), times[1..])
  }

  /** What the wrapped product shows of the time since the last refill. */
  function Shown(b: Bucket, now: int): int {
    var product := Wrap64((now - b.lastRefill) * b.rate);
    if product > 0 then product else 0
  }

  lemma WrapBelow(x: int, y: nat)
    ensures Wrap64(x + y) <= Wrap64(x) + y
  {
  }

  lemma ShownGrows(b: Bucket, now: int, later: int)
    requires now <= later && b.rate > 0
    ensures Shown(b, later) <= Shown(b, now) + (later - now) * b.rate
  {
    RateMonotone(0, later - now, b.rate);
    RateSplit(b.lastRefill, now, later, b.rate);
    WrapBelow((now - b.lastRefill) * b.rate, (later - now) * b.rate);
  }

  lemma CallAnyway(b: Bucket, now: int)
    requires Settled(b) && 0 <= now - b.lastRefill < TWO_63
    ensures var b', add := AfterAllow(b, now), Shown(b, now) / NANOS_PER_SECOND;
            && Settled(b') && b'.rate == b.rate && b'.burst == b.burst
            && b'.lastRefill == (if add > 0 then now else b.lastRefill)
            && b'.tokens + (if Admits(b, now) then 1 else 0)
               == (if b.tokens + add > b.burst then b.burst else b.tokens + add)
  {
    assert Credit(b, now) == TruncDiv(Wrap64((now - b.lastRefill) * b.rate), NANOS_PER_SECOND);
  }

  /** One call costs no more than the balance and what the wrapped product shows. */
  lemma CallAnywayPaid(b: Bucket, now: int)
    requires Settled(b) && 0 <= now - b.lastRefill < TWO_63
    ensures var b', n := AfterAllow(b, now), if Admits(b, now) then 1 else 0;
            && n * NANOS_PER_SECOND + b'.tokens * NANOS_PER_SECOND + Shown(b', now)
               <= b.tokens * NANOS_PER_SECOND + Shown(b, now)
            && n * NANOS_PER_SECOND + b'.tokens * NANOS_PER_SECOND + Shown(b', now) <= b.burst * NANOS_PER_SECOND
  {
    CallAnyway(b, now);
    NothingYet(b.(lastRefill := now));
  }

  lemma {:induction false} AdmittedAnyway(b: Bucket, times: seq<int>, from: int, end: int)
    requires Settled(b) && Ordered(b, times) && b.lastRefill <= from <= end
    requires (times != [] ==> from <= times[0]) && forall t :: t in times ==> t <= end
    ensures Admitted(b, times) * NANOS_PER_SECOND
         <= b.tokens * NANOS_PER_SECOND + Shown(b, from) + (end - from) * b.rate
    decreases |times|
  {
    RateMonotone(0, end - from, b.rate);
    if times != [] {
      var now := times[0];
      assert now in times && forall t :: t in times[1..] ==> t in times;
      CallAnyway(b, now);
      CallAnywayPaid(b, now);
      AdmittedAnyway(AfterAllow(b, now), times[1..], now, end);
      ShownGrows(b, from, now);
      RateSplit(from, now, end, b.rate);
    }
  }

  lemma WindowAnyway(b: Bucket, window: seq<int>, start: int, end: int)
    requires Settled(b) && Ordered(b, window)
    requires start <= end && forall t :: t in window ==> start <= t <= end
    ensures Admitted(b, window) <= b.burst + (end - start) * b.rate / NANOS_PER_SECOND
  {
    RateMonotone(0, end - start, b.rate);
    if window != [] {
      var first := window[0];
      assert first in window && forall t :: t in window[1..] ==> t in window;
      CallAnyway(b, first);
      CallAnywayPaid(b, first);
      AdmittedAnyway(AfterAllow(b, first), window[1..], first, end);
      RateMonotone(end - first, end - start, b.rate);
    }
    TokenFloor(Admitted(b, window), b.burst, (end - start) * b.rate);
  }

  lemma {:induction false} RunOrdered(b: Bucket, before: seq<int>, window: seq<int>)
    requires Settled(b) && Ordered(b, before + window)
    ensures var b' := RunCalls(b, before);
            Settled(b') && Ordered(b', window) && b'.rate == b.rate && b'.burst == b.burst
    decreases |before|
  {
    if before == [] {
      assert before + window == window;
    } else {
      var all := before + window;
      assert all[0] == before[0] && all[1..] == before[1..] + window;
      CallAnyway(b, before[0]);
      RunOrdered(AfterAllow(b, before[0]), before[1..], window);
    }
  }

  /** With an ordered clock the rate limit holds even when products overflow: wrapping around never adds credit. */
  lemma WindowLimitAnyway(b: Bucket, before: seq<int>, window: seq<int>, start: int, end: int)
    requires Settled(b) && Ordered(b, before + window)
    requires start <= end && forall t :: t in window ==> start <= t <= end
    ensures Admitted(RunCalls(b, before), window) <= b.burst + (end - start) * b.rate / NANOS_PER_SECOND
  {
    RunOrdered(b, before, window);
    WindowAnyway(RunCalls(b, before), window, start, end);
  }

  lemma TokenFloor(n: int, burst: int, earned: nat)
    requires n * NANOS_PER_SECOND <= burst * NANOS_PER_SECOND + earned
    ensures n <= burst + earned / NANOS_PER_SECOND
  {
  }

  /** `credit` tokens for `earned`: never more than earned and, if anything was refilled, more than half. */
  predicate HalfKept(credit: int, earned: int, refilled: bool) {
    && 0 <= credit * NANOS_PER_SECOND <= earned
    && (if refilled then earned < 2 * credit * NANOS_PER_SECOND else earned == 0)
  }

  /**
   The fractions that refills discard: the credit of a run never exceeds what the time up to
   its last refill earned and, once a refill happened, is more than half of it.
   */
  lemma {:induction false} CreditLoss(b: Bucket, times: seq<int>)
    requires Settled(b) && Schedule(b, times)
    ensures var last := RunCalls(b, times).lastRefill;
            b.lastRefill <= last &&
            HalfKept(Credited(b, times), (last - b.lastRefill) * b.rate, last != b.lastRefill)
    decreases |times|
  {
    if times == [] {
      assert HalfKept(0, 0, false);
      assert (b.lastRefill - b.lastRefill) * b.rate == 0;
    } else {
      var b' := AfterAllow(b, times[0]);
      CallLoss(b, times[0]);
      CreditLoss(b', times[1..]);
      LossAdds(b.rate, b.lastRefill, b'.lastRefill, RunCalls(b', times[1..]).lastRefill,
               Gain(b, times[0]), Credited(b', times[1..]));
      assert Credited(b, times) == Gain(b, times[0]) + Credited(b', times[1..]);
      assert RunCalls(b, times).lastRefill == RunCalls(b', times[1..]).lastRefill;
    }
  }

  lemma CallLoss(b: Bucket, now: int)
    requires Settled(b) && InRange(b, now)
    ensures var b' := AfterAllow(b, now);
            && Settled(b') && b'.rate == b.rate && b'.lastRefill >= b.lastRefill
            && Gain(b, now) == (if Credit(b, now) > 0 then Credit(b, now) else 0)
            && HalfKept(Gain(b, now), (b'.lastRefill - b.lastRefill) * b.rate, b'.lastRefill != b.lastRefill)
  {
    CallStep(b, now);
    GainIsCredit(b, now);
    if Gain(b, now) == 0 {
      assert (b.lastRefill - b.lastRefill) * b.rate == 0;
    }
  }

  lemma LossAdds(rate: int, from: int, mid: int, to: int, c1: int, c2: int)
    requires from <= mid <= to
    requires HalfKept(c1, (mid - from) * rate, mid != from) && HalfKept(c2, (to - mid) * rate, to != mid)
    ensures HalfKept(c1 + c2, (to - from) * rate, to != from)
  {
    RateSplit(from, mid, to, rate);
  }

  /** Consecutive calls are at least 1/rate seconds apart. */
  predicate Spaced(rate: int, times: seq<int>) {
    forall i :: 0 < i < |times| ==> Gap(times, i) * rate >= NANOS_PER_SECOND
  }

  function Gap(times: seq<int>, i: nat): int
    requires 0 < i < |times|
  {
    times[i] - times[i - 1]
  }

  /** The calls at the start that come less than 1/rate seconds after the last refill. */
  function Early(rate: int, last: int, times: seq<int>): nat
    decreases |times|
  {
    if times == [] || (times[0] - last) * rate >= NANOS_PER_SECOND then 0 else 1 + Early(rate, last, times[1..])
  }

  /**
   A client that keeps to the rate is never refused, exactly if the tokens in the bucket pay
   for the calls that come too early after the last refill.
   */
  lemma {:induction false} SpacedNeverRefused(b: Bucket, times: seq<int>)
    requires Settled(b) && Schedule(b, times) && Spaced(b.rate, times)
    ensures Admitted(b, times) == |times| <==> Early(b.rate, b.lastRefill, times) <= b.tokens
    decreases |times|
  {
    if times != [] {
      var b' := AfterAllow(b, times[0]);
      CallStep(b, times[0]);
      EarlyGain(b, times[0]);
      AdmittedAtMost(b', times[1..]);
      SpacedTail(b.rate, times);
      SpacedNeverRefused(b', times[1..]);
    }
  }

  lemma EarlyGain(b: Bucket, now: int)
    requires b.rate > 0
    ensures Gain(b, now) > 0 <==> (now - b.lastRefill) * b.rate >= NANOS_PER_SECOND
  {
    if now <= b.lastRefill {
      RateMonotone(now - b.lastRefill, 0, b.rate);
    }
  }

  lemma {:induction false} AdmittedAtMost(b: Bucket, times: seq<int>)
    ensures Admitted(b, times) <= |times|
    decreases |times|
  {
    if times != [] {
      AdmittedAtMost(AfterAllow(b, times[0]), times[1..]);
    }
  }

  lemma SpacedTail(rate: int, times: seq<int>)
    requires Spaced(rate, times) && times != []
    ensures Spaced(rate, times[1..]) && Early(rate, times[0], times[1..]) == 0
  {
    if |times| > 1 {
      assert Gap(times, 1) * rate >= NANOS_PER_SECOND;
    }
    forall i | 0 < i < |times| - 1
      ensures Gap(times[1..], i) * rate >= NANOS_PER_SECOND
    {
      assert Gap(times[1..], i) == Gap(times, i + 1);
    }
  }

  /** `n` calls at the same instant. */
  function AtOnce(now: int, n: nat): seq<int> {
    seq(n, _ => now)
  }

  lemma FillStep(b: Bucket, now: int)
    requires Settled(b) && InRange(b, now) && b.tokens + Gain(b, now) >= b.burst
    ensures Admits(b, now) && AfterAllow(b, now) == b.(tokens := b.burst - 1, lastRefill := now)
  {
    CallStep(b, now);
  }

  lemma NothingYet(b: Bucket)
    ensures InRange(b, b.lastRefill) && Gain(b, b.lastRefill) == 0
  {
  }

  /** Idle time fills the bucket to the burst and no further: of `n` calls at once exactly `burst` pass. */
  lemma FullBucket(b: Bucket, now: int, n: nat)
    requires Settled(b) && InRange(b, now)
    requires b.tokens + Gain(b, now) >= b.burst
    ensures Admitted(b, AtOnce(now, n)) == if n < b.burst then n else b.burst
  {
    if n > 0 {
      FillStep(b, now);
      var b' := b.(tokens := b.burst - 1, lastRefill := now);
      NothingYet(b');
      GainIsCredit(b', now);
      assert AtOnce(now, n)[1..] == AtOnce(now, n - 1);
      Drain(b', now, n - 1);
    }
  }

  /** Calls at an instant that brings no credit take the tokens that are there. */
  lemma {:induction false} Drain(b: Bucket, now: int, n: nat)
    requires b.tokens >= 0 && Credit(b, now) <= 0
    ensures var taken := if n < b.tokens then n else b.tokens;
            && Admitted(b, AtOnce(now, n)) == taken
            && RunCalls(b, AtOnce(now, n)) == b.(tokens := b.tokens - taken)
    decreases n
  {
    if n > 0 {
      assert AtOnce(now, n)[1..] == AtOnce(now, n - 1);
      Drain(AfterAllow(b, now), now, n - 1);
    }
  }

  // ----- what the conditions of the rate limit are for -----

  /** The shortest time whose product with the rate leaves the int64 range. */
  function Overflow(rate: int): int
    requires rate > 0
  {
    (TWO_63 + rate - 1) / rate
  }

  lemma OverflowBounds(rate: int)
    requires 2 <= rate <= NANOS_PER_SECOND
    ensures TWO_63 <= Overflow(rate) * rate < TWO_63 + rate && 1 < Overflow(rate) < TWO_63
  {
    var q, r := Overflow(rate), (TWO_63 + rate - 1) % rate;
    assert q * rate == TWO_63 + rate - 1 - r;
    if q >= TWO_63 {
      RateMonotone(TWO_63, q, rate);
    }
    if q <= 1 {
      RateMonotone(q, 1, rate);
    }
  }

  /** A bucket whose next product overflows at `now` and does not 1 ns earlier. */
  function Poised(rate: int, burst: int, now: int): Bucket
    requires rate > 0
  {
    Bucket(burst - 1, now - Overflow(rate), rate, burst)
  }

  lemma PoisedCredit(rate: int, burst: int, now: int)
    requires 2 <= rate <= NANOS_PER_SECOND && 2 <= burst <= 9_000_000_000
    ensures var b := Poised(rate, burst, now);
            Credit(b, now) <= 0 && InRange(b, now - 1) && burst <= Gain(b, now - 1)
  {
    var b, e := Poised(rate, burst, now), Overflow(rate);
    OverflowBounds(rate);
    CreditWraps(b, now);
    WrapTurns(e * rate, 1);
    RateSplit(b.lastRefill, now - 1, now, rate);
    assert (now - 1 - b.lastRefill) * rate == e * rate - rate;
    assert Earned(b, now - 1) >= TWO_63 - rate;
  }

  lemma PoisedAdmits(rate: int, burst: int, now: int)
    requires 2 <= rate <= NANOS_PER_SECOND && 2 <= burst <= 9_000_000_000
    ensures Admitted(Poised(rate, burst, now), AtOnce(now, burst - 1) + AtOnce(now - 1, burst)) == 2 * burst - 1
  {
    var b := Poised(rate, burst, now);
    PoisedCredit(rate, burst, now);
    Drain(b, now, burst - 1);
    FullBucket(b.(tokens := 0), now - 1, burst);
    RunAppend(b, AtOnce(now, burst - 1), AtOnce(now - 1, burst));
  }

  /** Every elapsed time of the run fits an int64; its product with the rate may not, and the clock may step back. */
  predicate ElapsedFits(b: Bucket, times: seq<int>)
    decreases |times|
  {
    times != [] ==>
      -TWO_63 <= times[0] - b.lastRefill < TWO_63 && ElapsedFits(AfterAllow(b, times[0]), times[1..])
  }

  lemma {:induction false} FitsWithin(b: Bucket, times: seq<int>, from: int, to: int)
    requires from <= b.lastRefill <= to && to - from < TWO_63 && forall t :: t in times ==> from <= t <= to
    ensures ElapsedFits(b, times)
    decreases |times|
  {
    if times != [] {
      assert times[0] in times && forall t :: t in times[1..] ==> t in times;
      FitsWithin(AfterAllow(b, times[0]), times[1..], from, to);
    }
  }

  lemma {:induction false} SlowestSchedule(b: Bucket, times: seq<int>)
    requires b.rate == 1 && ElapsedFits(b, times)
    ensures Schedule(b, times)
    decreases |times|
  {
    if times != [] {
      SlowestSchedule(AfterAllow(b, times[0]), times[1..]);
    }
  }

  /** More calls of the window, all from `start` to `end`, are admitted than burst and rate allow. */
  ghost predicate Exceeds(b: Bucket, window: seq<int>, start: int, end: int) {
    && start <= end && (forall t :: t in window ==> start <= t <= end)
    && Admitted(b, window) > b.burst + (end - start) * b.rate / NANOS_PER_SECOND
  }

  lemma PoisedExceeds(rate: int, burst: int, now: int, window: seq<int>)
    requires 2 <= rate < NANOS_PER_SECOND && 2 <= burst <= 9_000_000_000
    requires window == AtOnce(now, burst - 1) + AtOnce(now - 1, burst)
    ensures Exceeds(Poised(rate, burst, now), window, now - 1, now)
  {
    PoisedAdmits(rate, burst, now);
    assert (now - (now - 1)) * rate == rate;
  }

  /**
   For every rate from 2 tokens per second to less than 1 per nanosecond, a clock that steps
   back by 1 ns across the end of the int64 range lets almost twice the burst pass within that
   nanosecond: neither condition of the rate limit can be dropped.
   */
  lemma LimitExceeded(rate: int, burst: int, now: int) returns (b: Bucket, window: seq<int>)
    requires 2 <= rate < NANOS_PER_SECOND && 2 <= burst <= 9_000_000_000
    ensures Settled(b) && b.rate == rate && b.burst == burst
    ensures ElapsedFits(b, window) && Admitted(b, window) == 2 * burst - 1
    ensures Exceeds(b, window, now - 1, now)
  {
    b, window := Poised(rate, burst, now), AtOnce(now, burst - 1) + AtOnce(now - 1, burst);
    OverflowBounds(rate);
    PoisedAdmits(rate, burst, now);
    PoisedExceeds(rate, burst, now, window);
    FitsWithin(b, window, b.lastRefill, now);
  }

  lemma SlowestKeeps(b: Bucket, window: seq<int>, start: int, end: int)
    requires Settled(b) && b.rate == 1 && ElapsedFits(b, window)
    ensures !Exceeds(b, window, start, end)
  {
    if start <= end && forall t :: t in window ==> start <= t <= end {
      SlowestSchedule(b, window);
      WindowFromSettled(b, window, start, end);
    }
  }

  /** Some clock makes a bucket with these limits admit more than they allow. */
  ghost predicate Exceedable(rate: int, burst: int) {
    exists b, window, start, end ::
      Settled(b) && b.rate == rate && b.burst == burst && ElapsedFits(b, window) && Exceeds(b, window, start, end)
  }

  /** Whatever the clock does, the limit is kept exactly at the rate of one token per second. */
  lemma AnyClockExactly(rate: int, burst: int)
    requires 1 <= rate < NANOS_PER_SECOND && 2 <= burst <= 9_000_000_000
    ensures Exceedable(rate, burst) <==> rate != 1
  {
    if rate != 1 {
      var b, window := LimitExceeded(rate, burst, 0);
    } else if Exceedable(rate, burst) {
      var b, window, start, end :|
        Settled(b) && b.rate == rate && b.burst == burst && ElapsedFits(b, window) && Exceeds(b, window, start, end);
      SlowestKeeps(b, window, start, end);
    }
  }
}
