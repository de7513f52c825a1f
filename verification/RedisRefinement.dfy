/** The Redis store refines the ledger read by whole seconds, although its two indexes drift apart. */
module RedisRefinement {
  import opened Wrappers
  import opened Sequences
  import opened Clock
  import opened Ledger
  import opened Outcomes
  import opened RedisServer
  import opened RedisKeys
  import opened RedisStore
  import opened RedisIndex

  /** Can `ks` be the keyspace after these calls, each run to completion, on an empty server? */
  ghost predicate Reaches(prefix: string, calls: seq<Call>, ks: Keyspace)
    decreases |calls|
  {
    if calls == [] then ks == map[]
    else
      var earlier, last := calls[..|calls| - 1], calls[|calls| - 1];
      exists before :: Reaches(prefix, earlier, before) && Step(prefix, before, last, ks)
  }

  /** Every call can complete, whatever the keyspace. */
  lemma SomeStep(prefix: string, ks: Keyspace, c: Call) returns (ks': Keyspace)
    ensures Step(prefix, ks, c, ks')
  {
    if Rejection(c).Some? {
      return ks;
    }
    match c
    case SetVisibilityCall(t, d, v) => ks' := ExecAll(ks, Rendered(prefix, [VisibilityWrite(t, d, v)]));
    case GrantCall(t, d, u, _, validTo, clock) =>
      ks' := ExecAll(ks, Rendered(prefix, GrantWrites(Triple(t, d, u), validTo, clock)));
    case RevokeCall(t, d, u) => ks' := ExecAll(ks, Rendered(prefix, RevokeWrites(Triple(t, d, u))));
    case RevokeAllCall(t, u) =>
      var docs := EnumerationExists(UserDocs(prefix, ks, t, u));
      ks' := ExecAll(ks, Rendered(prefix, DocRemovals(t, u, docs) + UserRemovals(t, u)));
  }

  /** What is proved of reachable keyspaces is not empty: any calls lead to one. */
  lemma {:induction false} SomeReachable(prefix: string, calls: seq<Call>) returns (ks: Keyspace)
    ensures Reaches(prefix, calls, ks)
    decreases |calls|
  {
    if calls == [] {
      return map[];
    }
    var n := |calls| - 1;
    var before := SomeReachable(prefix, calls[..n]);
    ks := SomeStep(prefix, before, calls[n]);
  }

  /** Every accepted call is about one of the tenants. */
  ghost predicate TenantsIn(calls: seq<Call>, tenants: iset<string>) {
    forall i :: 0 <= i < |calls| && Rejection(calls[i]).None? ==> calls[i].tenant in tenants
  }

  // ----- one call -----

  /** The effect of a completed call on the entry of one triple. */
  function CallEffect(c: Call, k: Triple, e: Entry): Entry {
    if Rejection(c).Some? then e
    else match c
      case SetVisibilityCall(_, _, _) => e
      case GrantCall(t, d, u, _, validTo, clock) => GrantEffect(Triple(t, d, u), validTo, clock, k, e)
      case RevokeCall(t, d, u) => if k == Triple(t, d, u) then NO_ENTRY else e
      case RevokeAllCall(t, u) =>
        if !(k.tenant == t && k.user == u) then e
        else
          var listed := k.doc != "" && (e.userPerm || e.userScore.Some?);
          Entry(e.docPerm && !listed, false, if listed then None else e.docScore, None)
  }

  lemma ListedDocs(prefix: string, ks: Keyspace, k: Triple)
    ensures var e := EntryAt(prefix, ks, k);
            k.doc in UserDocs(prefix, ks, k.tenant, k.user) <==> k.doc != "" && (e.userPerm || e.userScore.Some?)
  {
  }

  lemma {:induction false} DocRemovalsSound(tenants: iset<string>, tenant: string, user: string, docs: seq<string>)
    requires tenant in tenants
    ensures var ws := DocRemovals(tenant, user, docs) + UserRemovals(tenant, user);
            Sound(tenants, ws) && forall i :: 0 <= i < |ws| ==> !ws[i].key.Visibility?
    decreases |docs|
  {
    if docs != [] {
      DocRemovalsSound(tenants, tenant, user, docs[..|docs| - 1]);
      var first := DocRemovals(tenant, user, docs[..|docs| - 1]);
      assert forall i :: 0 <= i < |first| ==> first[i] == (first + UserRemovals(tenant, user))[i];
    }
  }

  /** The commands `ws` do what the call `c` should do, and touch visibility keys only if it sets one. */
  ghost predicate Performs(prefix: string, tenants: iset<string>, ks: Keyspace, c: Call, ws: seq<Write>) {
    && Sound(tenants, ws)
    && (forall k: Triple :: k.tenant in tenants ==>
          EntryUpTo(ws, |ws|, k, EntryAt(prefix, ks, k)) == CallEffect(c, k, EntryAt(prefix, ks, k)))
    && (if Rejection(c).None? && c.SetVisibilityCall? then ws == [VisibilityWrite(c.tenant, c.doc, c.visibility)]
        else forall i :: 0 <= i < |ws| ==> !ws[i].key.Visibility?)
  }

  lemma GrantPerforms(prefix: string, tenants: iset<string>, ks: Keyspace, c: Call)
    requires c.GrantCall? && Rejection(c).None? && c.tenant in tenants
    ensures Performs(prefix, tenants, ks, c, GrantWrites(Triple(c.tenant, c.doc, c.user), c.validTo, c.clock))
  {
    forall k: Triple {
      GrantEntries(Triple(c.tenant, c.doc, c.user), c.validTo, c.clock, k, EntryAt(prefix, ks, k));
    }
  }

  lemma RevokePerforms(prefix: string, tenants: iset<string>, ks: Keyspace, c: Call)
    requires c.RevokeCall? && Rejection(c).None? && c.tenant in tenants
    ensures Performs(prefix, tenants, ks, c, RevokeWrites(Triple(c.tenant, c.doc, c.user)))
  {
    forall k: Triple {
      RevokeEntries(Triple(c.tenant, c.doc, c.user), k, EntryAt(prefix, ks, k));
    }
  }

  lemma RevokeAllPerforms(prefix: string, tenants: iset<string>, ks: Keyspace, c: Call, docs: seq<string>)
    requires c.RevokeAllCall? && Rejection(c).None? && c.tenant in tenants
    requires Enumerates(docs, UserDocs(prefix, ks, c.tenant, c.user))
    ensures Performs(prefix, tenants, ks, c, DocRemovals(c.tenant, c.user, docs) + UserRemovals(c.tenant, c.user))
  {
    DocRemovalsSound(tenants, c.tenant, c.user, docs);
    var ws := DocRemovals(c.tenant, c.user, docs) + UserRemovals(c.tenant, c.user);
    forall k: Triple
      ensures EntryUpTo(ws, |ws|, k, EntryAt(prefix, ks, k)) == CallEffect(c, k, EntryAt(prefix, ks, k))
    {
      RevokeAllEntries(c.tenant, c.user, docs, k, EntryAt(prefix, ks, k));
      ListedDocs(prefix, ks, k);
    }
  }

  /** The commands of a call. */
  lemma CallWrites(prefix: string, tenants: iset<string>, ks: Keyspace, c: Call, ks': Keyspace) returns (ws: seq<Write>)
    requires Step(prefix, ks, c, ks') && (Rejection(c).None? ==> c.tenant in tenants)
    ensures ks' == ExecAll(ks, Rendered(prefix, ws)) && Performs(prefix, tenants, ks, c, ws)
  {
    if Rejection(c).Some? {
      return [];
    }
    match c
    case SetVisibilityCall(t, d, v) =>
      ws := [VisibilityWrite(t, d, v)];
    case GrantCall(t, d, u, _, validTo, clock) =>
      ws := GrantWrites(Triple(t, d, u), validTo, clock);
      GrantPerforms(prefix, tenants, ks, c);
    case RevokeCall(t, d, u) =>
      ws := RevokeWrites(Triple(t, d, u));
      RevokePerforms(prefix, tenants, ks, c);
    case RevokeAllCall(t, u) =>
      var docs :| Enumerates(docs, UserDocs(prefix, ks, t, u)) &&
        ks' == ExecAll(ks, Rendered(prefix, DocRemovals(t, u, docs) + UserRemovals(t, u)));
      ws := DocRemovals(t, u, docs) + UserRemovals(t, u);
      RevokeAllPerforms(prefix, tenants, ks, c, docs);
  }

  lemma StepEffect(prefix: string, tenants: iset<string>, ks: Keyspace, c: Call, ks': Keyspace)
    requires Apart(tenants) && Typed(prefix, tenants, ks) && Step(prefix, ks, c, ks')
    requires Rejection(c).None? ==> c.tenant in tenants
    ensures Typed(prefix, tenants, ks')
    ensures forall k: Triple :: k.tenant in tenants ==>
      EntryAt(prefix, ks', k) == CallEffect(c, k, EntryAt(prefix, ks, k))
    ensures forall t, d :: t in tenants ==>
      (RestrictedIn(prefix, ks', t, d) <==>
        if c.SetVisibilityCall? && Rejection(c).None? && c.tenant == t && c.doc == d then c.visibility == RESTRICTED
        else RestrictedIn(prefix, ks, t, d))
  {
    var ws := CallWrites(prefix, tenants, ks, c, ks');
    ExecUpToTyped(prefix, tenants, ks, ws, |ws|);
    forall k: Triple | k.tenant in tenants
      ensures EntryAt(prefix, ks', k) == CallEffect(c, k, EntryAt(prefix, ks, k))
    {
      ExecUpToEntry(prefix, tenants, ks, ws, |ws|, k);
    }
    forall t, d | t in tenants
      ensures RestrictedIn(prefix, ks', t, d) <==>
        if c.SetVisibilityCall? && Rejection(c).None? && c.tenant == t && c.doc == d then c.visibility == RESTRICTED
        else RestrictedIn(prefix, ks, t, d)
    {
      VisibilityStep(prefix, tenants, ks, c, ws, t, d);
    }
  }

  lemma VisibilityStep(
      prefix: string, tenants: iset<string>, ks: Keyspace, c: Call, ws: seq<Write>, t: string, d: string)
    requires Apart(tenants) && Sound(tenants, ws) && t in tenants
    requires Rejection(c).None? && c.SetVisibilityCall? ==> ws == [VisibilityWrite(c.tenant, c.doc, c.visibility)]
    requires Rejection(c).Some? || !c.SetVisibilityCall? ==> forall i :: 0 <= i < |ws| ==> !ws[i].key.Visibility?
    ensures RestrictedIn(prefix, ExecAll(ks, Rendered(prefix, ws)), t, d) <==>
      if c.SetVisibilityCall? && Rejection(c).None? && c.tenant == t && c.doc == d then c.visibility == RESTRICTED
      else RestrictedIn(prefix, ks, t, d)
  {
    if c.SetVisibilityCall? && Rejection(c).None? {
      ExecUpToNext(prefix, ks, ws, 1);
      ExecAtKey(prefix, tenants, ks, ws[0], Visibility(t, d));
    } else {
      ExecUpToVisibility(prefix, tenants, ks, ws, |ws|, t, d);
    }
  }

  /** The entry of `k` after the calls. */
  function EntryOf(calls: seq<Call>, k: Triple): Entry
    decreases |calls|
  {
    if calls == [] then NO_ENTRY else CallEffect(calls[|calls| - 1], k, EntryOf(calls[..|calls| - 1], k))
  }

  /** The order in which documents are visited leaves no trace: the calls alone determine every entry. */
  lemma {:induction false} ReachableEntry(
      prefix: string, tenants: iset<string>, calls: seq<Call>, ks: Keyspace, k: Triple)
    requires Apart(tenants) && TenantsIn(calls, tenants) && Reaches(prefix, calls, ks) && k.tenant in tenants
    ensures Typed(prefix, tenants, ks) && EntryAt(prefix, ks, k) == EntryOf(calls, k)
    decreases |calls|
  {
    if calls != [] {
      var n := |calls| - 1;
      var before :| Reaches(prefix, calls[..n], before) && Step(prefix, before, calls[n], ks);
      ReachableEntry(prefix, tenants, calls[..n], before, k);
      StepEffect(prefix, tenants, before, calls[n], ks);
    }
  }

  // ----- the dual index -----

  /**
   Agreement of the two indexes at one triple: permanent on both sides or on neither; equal
   scores where both sides have one; a score on one side only is at or below `limit`; and on
   each side never both permanent and expiring.
   */
  predicate Agrees(e: Entry, limit: int) {
    && e.docPerm == e.userPerm
    && (e.docScore.Some? && e.userScore.Some? ==> e.docScore == e.userScore)
    && (e.docScore.Some? && e.userScore.None? ==> e.docScore.value <= limit)
    && (e.userScore.Some? && e.docScore.None? ==> e.userScore.value <= limit)
    && (e.docPerm ==> e.docScore.None?) && (e.userPerm ==> e.userScore.None?)
  }

  /** The user side stands for the ledger's grant, or that grant had ended by `limit`. */
  predicate Represents(e: Entry, l: Ledger, k: Triple, limit: int) {
    && (e.userPerm <==> k in l.grants && l.grants[k].Permanent?)
    && (e.userScore.Some? ==> k in l.grants && l.grants[k].Until? && Seconds(l.grants[k].validTo) == e.userScore.value)
    && (k in l.grants && l.grants[k].Until? && e.userScore.None? ==> Seconds(l.grants[k].validTo) <= limit)
  }

  lemma CallKeeps(c: Call, k: Triple, e: Entry, l: Ledger, limit: Time)
    requires IdsPresent(l) && Agrees(e, Seconds(limit)) && Represents(e, l, k, Seconds(limit))
    requires c.GrantCall? ==> c.clock <= limit
    ensures Agrees(CallEffect(c, k, e), Seconds(limit))
    ensures Represents(CallEffect(c, k, e), Apply(l, c), k, Seconds(limit))
  {
    if c.GrantCall? {
      TripleParts(k, Triple(c.tenant, c.doc, c.user));
    }
  }

  /** The refinement relation between a keyspace and the ledger, for the tenants in use. */
  ghost predicate Refines(prefix: string, tenants: iset<string>, ks: Keyspace, l: Ledger, limit: Time) {
    && Typed(prefix, tenants, ks)
    && (forall k: Triple :: k.tenant in tenants ==>
          Agrees(EntryAt(prefix, ks, k), Seconds(limit)) && Represents(EntryAt(prefix, ks, k), l, k, Seconds(limit)))
    && (forall t, d :: t in tenants ==> (RestrictedIn(prefix, ks, t, d) <==> (t, d) in l.restricted))
  }

  lemma StepRefines(prefix: string, tenants: iset<string>, ks: Keyspace, c: Call, ks': Keyspace, l: Ledger, limit: Time)
    requires Apart(tenants) && Refines(prefix, tenants, ks, l, limit) && IdsPresent(l)
    requires Step(prefix, ks, c, ks') && (c.GrantCall? ==> c.clock <= limit)
    requires Rejection(c).None? ==> c.tenant in tenants
    ensures Refines(prefix, tenants, ks', Apply(l, c), limit)
  {
    StepEffect(prefix, tenants, ks, c, ks');
    forall k: Triple | k.tenant in tenants
      ensures Agrees(EntryAt(prefix, ks', k), Seconds(limit))
      ensures Represents(EntryAt(prefix, ks', k), Apply(l, c), k, Seconds(limit))
    {
      CallKeeps(c, k, EntryAt(prefix, ks, k), l, limit);
    }
  }

  /** Every reachable keyspace refines the ledger of the same calls, and its two indexes agree up to expired entries. */
  lemma {:induction false} ReachableRefines(
      prefix: string, tenants: iset<string>, calls: seq<Call>, ks: Keyspace, limit: Time)
    requires Apart(tenants) && TenantsIn(calls, tenants) && ClocksUpTo(calls, limit) && Reaches(prefix, calls, ks)
    ensures Refines(prefix, tenants, ks, Run(EMPTY, calls), limit)
    decreases |calls|
  {
    if calls != [] {
      var n := |calls| - 1;
      var before :| Reaches(prefix, calls[..n], before) && Step(prefix, before, calls[n], ks);
      ReachableRefines(prefix, tenants, calls[..n], before, limit);
      RunIdsPresent(calls[..n]);
      StepRefines(prefix, tenants, before, calls[n], ks, Run(EMPTY, calls[..n]), limit);
    }
  }

  // ----- queries -----

  lemma HoldsAlike(prefix: string, ks: Keyspace, l: Ledger, k: Triple, limit: Time, now: Time)
    requires Represents(EntryAt(prefix, ks, k), l, k, Seconds(limit)) && limit <= now
    ensures UserHolds(prefix, ks, k, now) <==> Holds(l, WholeSeconds, k, now)
  {
  }

  /**
   After every run of completed calls, a batch check about a time no earlier than the clocks of
   the run gives exactly the ledger's answer by whole seconds, although it reads the user side only.
   */
  lemma CheckBatchRefines(
      prefix: string, tenants: iset<string>, calls: seq<Call>, ks: Keyspace, limit: Time,
      tenant: string, user: string, docs: seq<string>, now: Time)
    requires Apart(tenants) && TenantsIn(calls, tenants) && ClocksUpTo(calls, limit) && Reaches(prefix, calls, ks)
    requires tenant in tenants && limit <= now
    ensures RedisCheck(prefix, ks, tenant, user, docs, now)
         == CheckBatch(Run(EMPTY, calls), WholeSeconds, tenant, user, docs, now)
  {
    var l := Run(EMPTY, calls);
    ReachableRefines(prefix, tenants, calls, ks, limit);
    forall d | d in docs
      ensures RedisAllowed(prefix, ks, tenant, user, now)(d) == Allowed(l, WholeSeconds, tenant, user, now)(d)
    {
      HoldsAlike(prefix, ks, l, Triple(tenant, d, user), limit, now);
      assert RestrictedIn(prefix, ks, tenant, d) <==> (tenant, d) in l.restricted;
    }
    FilterCongruent(docs, RedisAllowed(prefix, ks, tenant, user, now), Allowed(l, WholeSeconds, tenant, user, now));
  }

  /** The documents `ListGrants` returns for such a time are exactly those the ledger lists. */
  lemma ListGrantsRefines(
      prefix: string, tenants: iset<string>, calls: seq<Call>, ks: Keyspace, limit: Time,
      tenant: string, user: string, now: Time, docs: set<string>)
    requires Apart(tenants) && TenantsIn(calls, tenants) && ClocksUpTo(calls, limit) && Reaches(prefix, calls, ks)
    requires tenant in tenants && limit <= now
    requires forall d :: d in docs <==> RedisLists(prefix, ks, tenant, user, now, d)
    ensures ListsGrants(Run(EMPTY, calls), WholeSeconds, tenant, user, now, docs)
  {
    var l := Run(EMPTY, calls);
    ReachableRefines(prefix, tenants, calls, ks, limit);
    RunIdsPresent(calls);
    if tenant != "" && user != "" {
      forall d
        ensures d in docs <==> Holds(l, WholeSeconds, Triple(tenant, d, user), now)
      {
        HoldsAlike(prefix, ks, l, Triple(tenant, d, user), limit, now);
      }
    }
  }

  /**
   The answers after any run, from the arguments of its calls: a batch check about a time not
   before its clocks keeps exactly the documents that pass by whole seconds, in order and as
   often as asked for.
   */
  lemma AnswersExactly(
      prefix: string, tenants: iset<string>, calls: seq<Call>, ks: Keyspace,
      tenant: string, user: string, docs: seq<string>, now: Time) returns (picks: seq<nat>)
    requires Apart(tenants) && TenantsIn(calls, tenants) && ClocksUpTo(calls, now) && Reaches(prefix, calls, ks)
    requires tenant in tenants
    ensures var answer := RedisCheck(prefix, ks, tenant, user, docs, now);
            && PicksInOrder(docs, picks, answer)
            && forall d :: multiset(answer)[d] ==
                           if Passes(calls, WholeSeconds, tenant, user, now, d) then multiset(docs)[d] else 0
  {
    CheckBatchRefines(prefix, tenants, calls, ks, now, tenant, user, docs, now);
    picks := CheckBatchExactly(calls, WholeSeconds, tenant, user, docs, now);
  }

  /** The list of grants names exactly the documents the calls left the user a grant for. */
  lemma ListExactly(
      prefix: string, tenants: iset<string>, calls: seq<Call>, ks: Keyspace,
      tenant: string, user: string, now: Time, doc: string)
    requires Apart(tenants) && TenantsIn(calls, tenants) && ClocksUpTo(calls, now) && Reaches(prefix, calls, ks)
    requires tenant in tenants
    ensures RedisLists(prefix, ks, tenant, user, now, doc) <==>
            tenant != "" && user != "" && Held(calls, WholeSeconds, Triple(tenant, doc, user), now)
  {
    ReachableRefines(prefix, tenants, calls, ks, now);
    HoldsAlike(prefix, ks, Run(EMPTY, calls), Triple(tenant, doc, user), now, now);
    HeldExactly(calls, WholeSeconds, Triple(tenant, doc, user), now);
  }

  // ----- queries about earlier times -----

  /** An accepted expiring grant to the user of `k`, with a clock in or after the second in which `validTo` lies. */
  predicate CleansUserSide(c: Call, k: Triple, validTo: Time) {
    && c.GrantCall? && c.validTo.Some? && Rejection(c).None?
    && c.tenant == k.tenant && c.user == k.user && Seconds(validTo) <= Seconds(c.clock)
  }

  /** Did such a grant, on any document, drop the ledger's grant for `k` from the user side? */
  ghost predicate Purged(calls: seq<Call>, k: Triple) {
    Dropped(calls, k, CleansUserSide)
  }

  /** The user side of one entry, exactly: the ledger's grant, unless it was purged. */
  predicate UserSide(e: Entry, l: Ledger, k: Triple, purged: bool) {
    && (e.userPerm <==> k in l.grants && l.grants[k].Permanent?)
    && (e.userScore ==
        if k in l.grants && l.grants[k].Until? && !purged then Some(Seconds(l.grants[k].validTo)) else None)
  }

  lemma CallUserSide(c: Call, k: Triple, e: Entry, l: Ledger, purged: bool, purged': bool)
    requires UserSide(e, l, k, purged)
    requires purged' <==>
             !Decides(c, k) &&
             (purged || (k in l.grants && l.grants[k].Until? && CleansUserSide(c, k, l.grants[k].validTo)))
    ensures UserSide(CallEffect(c, k, e), Apply(l, c), k, purged')
  {
    if c.GrantCall? {
      TripleParts(k, Triple(c.tenant, c.doc, c.user));
    }
  }

  lemma {:induction false} PurgedExactly(calls: seq<Call>, k: Triple)
    ensures UserSide(EntryOf(calls, k), Run(EMPTY, calls), k, Purged(calls, k))
    decreases |calls|
  {
    if calls != [] {
      var n := |calls| - 1;
      PurgedExactly(calls[..n], k);
      DroppedLast(calls, k, CleansUserSide);
      CallUserSide(calls[n], k, EntryOf(calls[..n], k), Run(EMPTY, calls[..n]),
                   Purged(calls[..n], k), Purged(calls, k));
    }
  }

  /** For every time, past ones included: the store misses a grant of the ledger exactly when it was purged. */
  lemma HoldsExactly(
      prefix: string, tenants: iset<string>, calls: seq<Call>, ks: Keyspace, k: Triple, now: Time)
    requires Apart(tenants) && TenantsIn(calls, tenants) && Reaches(prefix, calls, ks) && k.tenant in tenants
    ensures UserHolds(prefix, ks, k, now) <==> Holds(Run(EMPTY, calls), WholeSeconds, k, now) && !Purged(calls, k)
  {
    ReachableEntry(prefix, tenants, calls, ks, k);
    PurgedExactly(calls, k);
    if Purged(calls, k) {
      DroppedHeld(calls, k, CleansUserSide);
    }
  }

  // ----- inside one grant -----

  /** Access as a reader of the user side sees it. */
  predicate Access(e: Entry, now: Time) {
    IsAllowedRestricted(e.userPerm, e.userScore, Seconds(now))
  }

  predicate NoGapAt(g: Triple, k: Triple, before: bool, during: bool, after: bool) {
    if k == g then (before && after ==> during) && (during ==> before || after) else during == before == after
  }

  /**
   No gap in the middle of a grant: after any number of its commands, at any time from its clock
   on, the granted triple has access if it has it both before and after, has it only if it has
   it before or after, and no other triple's access is different from before.
   */
  lemma NoGap(
      prefix: string, tenants: iset<string>, ks: Keyspace, g: Triple, validTo: Option<Time>, clock: Time,
      n: nat, k: Triple, now: Time)
    requires Apart(tenants) && Typed(prefix, tenants, ks) && g.tenant in tenants && k.tenant in tenants && clock <= now
    requires n <= |GrantWrites(g, validTo, clock)|
    ensures var commands := Rendered(prefix, GrantWrites(g, validTo, clock));
            NoGapAt(g, k, UserHolds(prefix, ks, k, now), UserHolds(prefix, ExecUpTo(ks, commands, n), k, now),
                    UserHolds(prefix, ExecAll(ks, commands), k, now))
  {
    var ws := GrantWrites(g, validTo, clock);
    var e := EntryAt(prefix, ks, k);
    ExecUpToEntry(prefix, tenants, ks, ws, n, k);
    ExecUpToEntry(prefix, tenants, ks, ws, |ws|, k);
    GrantPrefixAccess(g, validTo, clock, n, k, e, now);
    GrantEntries(g, validTo, clock, k, e);
  }

  lemma GrantPrefixAccess(g: Triple, validTo: Option<Time>, clock: Time, n: nat, k: Triple, e: Entry, now: Time)
    requires n <= |GrantWrites(g, validTo, clock)| && clock <= now
    ensures NoGapAt(g, k, Access(e, now), Access(EntryUpTo(GrantWrites(g, validTo, clock), n, k, e), now),
                    Access(GrantEffect(g, validTo, clock, k, e), now))
  {
    if validTo.None? {
      PermanentPrefixAccess(g, clock, n, k, e, now);
    } else {
      ExpiringPrefixAccess(g, validTo.value, clock, n, k, e, now);
    }
  }

  lemma PermanentPrefixAccess(g: Triple, clock: Time, n: nat, k: Triple, e: Entry, now: Time)
    requires n <= 6
    ensures NoGapAt(g, k, Access(e, now), Access(EntryUpTo(GrantWrites(g, None, clock), n, k, e), now),
                    Access(GrantEffect(g, None, clock, k, e), now))
  {
    TripleParts(k, g);
    var ws := GrantWrites(g, None, clock);
    EntryUpToNext(ws, 0, k, e);
    EntryUpToNext(ws, 1, k, e);
    EntryUpToNext(ws, 2, k, e);
    EntryUpToNext(ws, 3, k, e);
    EntryUpToNext(ws, 4, k, e);
    EntryUpToNext(ws, 5, k, e);
  }

  /** The user side of `k` after `n` commands of an expiring grant. */
  function UserSideUpTo(g: Triple, validTo: Time, clock: Time, n: nat, k: Triple, e: Entry): (bool, Option<int>) {
    (e.userPerm && !(n > 5 && k == g),
     if n > 3 && k == g then Some(Seconds(validTo))
     else if n > 1 && k.tenant == g.tenant && k.user == g.user then Unexpired(e.userScore, clock)
     else e.userScore)
  }

  lemma {:induction false} ExpiringUserSide(g: Triple, validTo: Time, clock: Time, n: nat, k: Triple, e: Entry)
    requires n <= 8
    ensures var x := EntryUpTo(GrantWrites(g, Some(validTo), clock), n, k, e);
            (x.userPerm, x.userScore) == UserSideUpTo(g, validTo, clock, n, k, e)
    decreases n
  {
    if n > 0 {
      ExpiringUserSide(g, validTo, clock, n - 1, k, e);
      EntryUpToNext(GrantWrites(g, Some(validTo), clock), n - 1, k, e);
      TripleParts(k, g);
    }
  }

  lemma ExpiringPrefixAccess(g: Triple, validTo: Time, clock: Time, n: nat, k: Triple, e: Entry, now: Time)
    requires n <= 8 && clock <= now
    ensures NoGapAt(g, k, Access(e, now), Access(EntryUpTo(GrantWrites(g, Some(validTo), clock), n, k, e), now),
                    Access(GrantEffect(g, Some(validTo), clock, k, e), now))
  {
    ExpiringUserSide(g, validTo, clock, n, k, e);
    TripleParts(k, g);
  }
}
