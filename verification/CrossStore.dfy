/** The two stores side by side: the same calls at the same times, the same question. */
module CrossStore {
  import opened Clock
  import opened Ledger
  import opened RedisServer
  import opened RedisIndex
  import opened RedisStore
  import opened MemoryStore
  import MemoryRefinement
  import opened RedisRefinement

  /** A restricted document whose expiring grant ends after `now` but within the same whole second. */
  predicate EndsThisSecond(l: Ledger, k: Triple, now: Time) {
    && (k.tenant, k.doc) in l.restricted && k in l.grants && l.grants[k].Until?
    && now < l.grants[k].validTo && Seconds(now) == Seconds(l.grants[k].validTo)
  }

  lemma PrecisionDifference(l: Ledger, k: Triple, now: Time)
    ensures Allows(l, WholeSeconds, k, now) <==> Allows(l, Exact, k, now) && !EndsThisSecond(l, k, now)
    ensures EndsThisSecond(l, k, now) ==> 0 < l.grants[k].validTo - now < NANOS_PER_SECOND
  {
  }

  function NotEnding(l: Ledger, tenant: string, user: string, now: Time): string -> bool {
    d => !EndsThisSecond(l, Triple(tenant, d, user), now)
  }

  /**
   After the same calls with the same clocks, the Redis answer is the in-memory answer without
   the documents whose grant ends within the current second, and hence within less than one
   second: a subsequence of it that misses nothing else.
   */
  lemma StoresAgree(
      prefix: string, tenants: iset<string>, calls: seq<Call>, ks: Keyspace, limit: Time,
      tenant: string, user: string, docs: seq<string>, now: Time)
    requires Apart(tenants) && TenantsIn(calls, tenants) && ClocksUpTo(calls, limit) && Reaches(prefix, calls, ks)
    requires tenant in tenants && limit <= now
    ensures var l := Run(EMPTY, calls);
            RedisCheck(prefix, ks, tenant, user, docs, now)
              == Filter(MemoryCheck(MemoryRefinement.MemoryRun(calls), tenant, user, docs, now),
                        NotEnding(l, tenant, user, now))
  {
    var l := Run(EMPTY, calls);
    CheckBatchRefines(prefix, tenants, calls, ks, limit, tenant, user, docs, now);
    MemoryRefinement.CheckBatchRefines(calls, limit, tenant, user, docs, now);
    if tenant != "" && user != "" {
      forall d | d in docs
        ensures Allowed(l, WholeSeconds, tenant, user, now)(d)
             == (Allowed(l, Exact, tenant, user, now)(d) && NotEnding(l, tenant, user, now)(d))
      {
        PrecisionDifference(l, Triple(tenant, d, user), now);
      }
      FilterTwice(docs, Allowed(l, Exact, tenant, user, now), NotEnding(l, tenant, user, now),
                  Allowed(l, WholeSeconds, tenant, user, now));
    }
  }
}
