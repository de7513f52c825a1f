/** The in-memory store refines the ledger: cleanup is never visible to a query of its time or later. */
module MemoryRefinement {
  import opened Clock
  import opened Ledger
  import opened Outcomes
  import opened Trees
  import opened MemoryStore

  ghost function MemoryRun(calls: seq<Call>): Memory
    decreases |calls|
  {
    if calls == [] then NO_MEMORY else MemoryApply(MemoryRun(calls[..|calls| - 1]), calls[|calls| - 1])
  }

  /** One triple: what the store keeps stands for the ledger's grant, or the grant had ended before `limit`. */
  ghost predicate Faithful(m: Memory, l: Ledger, k: Triple, limit: Time) {
    && (k in m.permanent <==> k in l.grants && l.grants[k].Permanent?)
    && (k in m.expiring ==> k in l.grants && l.grants[k] == Until(m.expiring[k]))
    && (k in l.grants && l.grants[k].Until? && k !in m.expiring ==> l.grants[k].validTo < limit)
  }

  ghost predicate SameVisibility(m: Memory, l: Ledger) {
    forall t, d :: ((t, d) in m.visibility && m.visibility[(t, d)] != PUBLIC) <==> (t, d) in l.restricted
  }

  /** The refinement relation, with cleanup clocks up to `limit`. */
  ghost predicate Refines(m: Memory, l: Ledger, limit: Time) {
    SameVisibility(m, l) && forall k :: Faithful(m, l, k, limit)
  }

  lemma ApplyRefines(m: Memory, l: Ledger, c: Call, limit: Time)
    requires Refines(m, l, limit) && (c.GrantCall? ==> c.clock <= limit)
    ensures Refines(MemoryApply(m, c), Apply(l, c), limit)
  {
    var m', l' := MemoryApply(m, c), Apply(l, c);
    forall k
      ensures Faithful(m', l', k, limit)
    {
      assert Faithful(m, l, k, limit);
    }
  }

  lemma {:induction false} RunRefines(calls: seq<Call>, limit: Time)
    requires ClocksUpTo(calls, limit)
    ensures Refines(MemoryRun(calls), Run(EMPTY, calls), limit)
    decreases |calls|
  {
    if calls != [] {
      var n := |calls| - 1;
      RunRefines(calls[..n], limit);
      ApplyRefines(MemoryRun(calls[..n]), Run(EMPTY, calls[..n]), calls[n], limit);
    }
  }

  lemma HoldsAlike(m: Memory, l: Ledger, k: Triple, limit: Time, now: Time)
    requires Faithful(m, l, k, limit) && limit <= now
    ensures MemoryHolds(m, k, now) <==> Holds(l, Exact, k, now)
  {
  }

  /**
   After every run of calls, a batch check about a time no earlier than the clocks of the run
   gives exactly the ledger's answer, order and repetitions included.
   */
  lemma CheckBatchRefines(calls: seq<Call>, limit: Time, tenant: string, user: string, docs: seq<string>, now: Time)
    requires ClocksUpTo(calls, limit) && limit <= now
    ensures MemoryCheck(MemoryRun(calls), tenant, user, docs, now)
         == CheckBatch(Run(EMPTY, calls), Exact, tenant, user, docs, now)
  {
    var m, l := MemoryRun(calls), Run(EMPTY, calls);
    RunRefines(calls, limit);
    forall d | d in docs
      ensures MemoryAllowed(m, tenant, user, now)(d) == Allowed(l, Exact, tenant, user, now)(d)
    {
      assert Faithful(m, l, Triple(tenant, d, user), limit);
      HoldsAlike(m, l, Triple(tenant, d, user), limit, now);
      assert (tenant, d) in l.restricted <==> (tenant, d) in m.visibility && m.visibility[(tenant, d)] != PUBLIC;
    }
    FilterCongruent(docs, MemoryAllowed(m, tenant, user, now), Allowed(l, Exact, tenant, user, now));
  }

  /** The documents `ListGrants` returns for such a time are exactly those the ledger lists. */
  lemma ListGrantsRefines(calls: seq<Call>, limit: Time, tenant: string, user: string, now: Time, docs: set<string>)
    requires ClocksUpTo(calls, limit) && limit <= now
    requires forall d :: d in docs <==> MemoryLists(MemoryRun(calls), tenant, user, now, d)
    ensures ListsGrants(Run(EMPTY, calls), Exact, tenant, user, now, docs)
  {
    var m, l := MemoryRun(calls), Run(EMPTY, calls);
    RunRefines(calls, limit);
    RunIdsPresent(calls);
    if tenant != "" && user != "" {
      forall d
        ensures d in docs <==> Holds(l, Exact, Triple(tenant, d, user), now)
      {
        assert Faithful(m, l, Triple(tenant, d, user), limit);
        HoldsAlike(m, l, Triple(tenant, d, user), limit, now);
      }
    }
  }

  /**
   The answers after any run, from the arguments of its calls: a batch check about a time not
   before its clocks keeps exactly the documents that pass, in order and as often as asked for.
   */
  lemma AnswersExactly(calls: seq<Call>, tenant: string, user: string, docs: seq<string>, now: Time)
      returns (picks: seq<nat>)
    requires ClocksUpTo(calls, now)
    ensures var answer := MemoryCheck(MemoryRun(calls), tenant, user, docs, now);
            && PicksInOrder(docs, picks, answer)
            && forall d :: multiset(answer)[d] ==
                           if Passes(calls, Exact, tenant, user, now, d) then multiset(docs)[d] else 0
  {
    CheckBatchRefines(calls, now, tenant, user, docs, now);
    picks := CheckBatchExactly(calls, Exact, tenant, user, docs, now);
  }

  /** The list of grants names exactly the documents the calls left the user a grant for. */
  lemma ListExactly(calls: seq<Call>, tenant: string, user: string, now: Time, doc: string)
    requires ClocksUpTo(calls, now)
    ensures MemoryLists(MemoryRun(calls), tenant, user, now, doc) <==>
            tenant != "" && user != "" && Held(calls, Exact, Triple(tenant, doc, user), now)
  {
    RunRefines(calls, now);
    assert Faithful(MemoryRun(calls), Run(EMPTY, calls), Triple(tenant, doc, user), now);
    HoldsAlike(MemoryRun(calls), Run(EMPTY, calls), Triple(tenant, doc, user), now, now);
    HeldExactly(calls, Exact, Triple(tenant, doc, user), now);
  }

  /** An accepted grant on the document of `k` whose clock is past `validTo` cleans that grant up. */
  predicate CleansUp(c: Call, k: Triple, validTo: Time) {
    c.GrantCall? && Rejection(c).None? && c.tenant == k.tenant && c.doc == k.doc && validTo < c.clock
  }

  /** Did a later grant on the same document, with a clock past its end, clean up the ledger's grant for `k`? */
  ghost predicate Purged(calls: seq<Call>, k: Triple) {
    Dropped(calls, k, CleansUp)
  }

  lemma {:induction false} PurgedExactly(calls: seq<Call>, k: Triple)
    ensures var m, l := MemoryRun(calls), Run(EMPTY, calls);
            && (k in m.permanent <==> k in l.grants && l.grants[k].Permanent?)
            && (k in m.expiring <==> k in l.grants && l.grants[k].Until? && !Purged(calls, k))
            && (k in m.expiring ==> l.grants[k] == Until(m.expiring[k]))
    decreases |calls|
  {
    if calls != [] {
      PurgedExactly(calls[..|calls| - 1], k);
      DroppedLast(calls, k, CleansUp);
    }
  }

  /** For every time, past ones included: the store misses a grant of the ledger exactly when it was purged. */
  lemma HoldsExactly(calls: seq<Call>, k: Triple, now: Time)
    ensures MemoryHolds(MemoryRun(calls), k, now) <==> Holds(Run(EMPTY, calls), Exact, k, now) && !Purged(calls, k)
  {
    PurgedExactly(calls, k);
    if Purged(calls, k) {
      DroppedHeld(calls, k, CleansUp);
    }
  }

  // ----- structure and counts -----

  ghost predicate Disjoint(m: Memory) {
    m.permanent !! m.expiring.Keys
  }

  ghost function Stored(m: Memory): set<Triple> {
    m.permanent + m.expiring.Keys
  }

  /** The stored triples of one user in one tenant. */
  ghost function EdgesOf(m: Memory, tenant: string, user: string): set<Triple> {
    set k | k in Stored(m) && k.tenant == tenant && k.user == user
  }

  lemma StoredCount(m: Memory)
    requires Disjoint(m)
    ensures |Stored(m)| == |m.permanent| + |m.expiring|
  {
    UnionSize(m.permanent, m.expiring.Keys, Stored(m));
  }

  lemma RevokeAllStored(m: Memory, tenant: string, user: string)
    requires tenant != "" && user != ""
    ensures var m' := MemoryApply(m, RevokeAllCall(tenant, user));
            && m'.permanent <= m.permanent && m'.expiring.Keys <= m.expiring.Keys
            && Stored(m') == Stored(m) - EdgesOf(m, tenant, user) && EdgesOf(m', tenant, user) == {}
  {
  }

  /** RevokeAllUser lowers the sum of the two edge counts by exactly the triples the user had in that tenant. */
  lemma RevokeAllCounts(m: Memory, tenant: string, user: string)
    requires Disjoint(m) && tenant != "" && user != ""
    ensures var m' := MemoryApply(m, RevokeAllCall(tenant, user));
            && Disjoint(m') && EdgesOf(m', tenant, user) == {}
            && |m'.permanent| + |m'.expiring| == |m.permanent| + |m.expiring| - |EdgesOf(m, tenant, user)|
  {
    var m' := MemoryApply(m, RevokeAllCall(tenant, user));
    RevokeAllStored(m, tenant, user);
    StoredCount(m);
    StoredCount(m');
    UnionSize(Stored(m'), EdgesOf(m, tenant, user), Stored(m));
  }
}
