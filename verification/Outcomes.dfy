/**
 What an access-control store promises (services/acl/internal/acl/store_interface.go), told
 from the arguments of the calls: which calls are accepted, what they change, and which
 documents a query lets through after any run.
 */
module Outcomes {
  import opened Wrappers
  import opened Clock
  import opened Ledger

  /** 1 January of year 1, 719162 days before the epoch. */
  lemma ZeroTime()
    ensures ZERO_TIME == -719_162 * 86_400 * 1_000_000_000
  {
  }

  // ----- one call -----

  lemma RunLast(calls: seq<Call>, c: Call)
    ensures Run(EMPTY, calls + [c]) == Apply(Run(EMPTY, calls), c)
  {
    assert (calls + [c])[..|calls|] == calls;
  }

  /**
   A grant is in force afterwards exactly if its three IDs are there and it does not, with both
   times given, end before it starts; else nothing changes, and missing IDs are reported first.
   */
  lemma GrantOutcome(
      calls: seq<Call>, tenant: string, doc: string, user: string, validFrom: Time, validTo: Option<Time>, clock: Time)
    ensures var c := GrantCall(tenant, doc, user, validFrom, validTo, clock);
            var before, after := Run(EMPTY, calls), Run(EMPTY, calls + [c]);
            if tenant == "" || doc == "" || user == "" then after == before && Rejection(c) == Some(MissingId)
            else if validFrom != ZERO_TIME && validTo.Some? && validTo.value != ZERO_TIME && validTo.value < validFrom
            then after == before && Rejection(c) == Some(InvalidInterval)
            else
              && Rejection(c) == None && after.restricted == before.restricted
              && after.grants == before.grants[Triple(tenant, doc, user) :=
                                   if validTo.None? then Permanent else Until(validTo.value)]
  {
    RunLast(calls, GrantCall(tenant, doc, user, validFrom, validTo, clock));
  }

  /** A revocation with its three IDs takes away the grant of exactly that triple. */
  lemma RevokeOutcome(calls: seq<Call>, tenant: string, doc: string, user: string)
    ensures var c := RevokeCall(tenant, doc, user);
            var before, after := Run(EMPTY, calls), Run(EMPTY, calls + [c]);
            if tenant == "" || doc == "" || user == "" then after == before && Rejection(c) == Some(MissingId)
            else
              && Rejection(c) == None && after.restricted == before.restricted
              && after.grants.Keys == before.grants.Keys - {Triple(tenant, doc, user)}
              && forall k :: k in after.grants ==> after.grants[k] == before.grants[k]
  {
    RunLast(calls, RevokeCall(tenant, doc, user));
  }

  /** RevokeAllUser with both IDs leaves exactly the grants of other users and of other tenants. */
  lemma RevokeAllOutcome(calls: seq<Call>, tenant: string, user: string)
    ensures var c := RevokeAllCall(tenant, user);
            var before, after := Run(EMPTY, calls), Run(EMPTY, calls + [c]);
            if tenant == "" || user == "" then after == before && Rejection(c) == Some(MissingId)
            else
              && Rejection(c) == None && after.restricted == before.restricted
              && (forall k :: k in after.grants <==> k in before.grants && (k.tenant != tenant || k.user != user))
              && forall k :: k in after.grants ==> after.grants[k] == before.grants[k]
  {
    RunLast(calls, RevokeAllCall(tenant, user));
  }

  /** Only "public" and "restricted" are visibilities; an accepted one changes the document named, and no other. */
  lemma VisibilityOutcome(calls: seq<Call>, tenant: string, doc: string, visibility: string)
    ensures var c := SetVisibilityCall(tenant, doc, visibility);
            var before, after := Run(EMPTY, calls), Run(EMPTY, calls + [c]);
            if visibility !in {"public", "restricted"} then
              after == before && Rejection(c) == Some(InvalidVisibility)
            else if tenant == "" || doc == "" then after == before && Rejection(c) == Some(MissingId)
            else
              && Rejection(c) == None && after.grants == before.grants
              && ((tenant, doc) in after.restricted <==> visibility == "restricted")
              && forall p :: p != (tenant, doc) ==> (p in after.restricted <==> p in before.restricted)
  {
    RunLast(calls, SetVisibilityCall(tenant, doc, visibility));
  }

  // ----- whole runs -----

  /** A grant of `k` with proper arguments. */
  predicate Grants(c: Call, k: Triple) {
    && c.GrantCall? && c.tenant == k.tenant && c.doc == k.doc && c.user == k.user
    && k.tenant != "" && k.doc != "" && k.user != ""
    && (c.validFrom == ZERO_TIME || c.validTo.None? || c.validTo.value == ZERO_TIME || c.validFrom <= c.validTo.value)
  }

  /** A revocation that covers `k`, with proper arguments. */
  predicate Takes(c: Call, k: Triple) {
    && k.tenant != "" && k.user != "" && (c.RevokeCall? || c.RevokeAllCall?)
    && c.tenant == k.tenant && c.user == k.user && (c.RevokeCall? ==> c.doc == k.doc && k.doc != "")
  }

  /** A visibility with proper arguments for the document. */
  predicate SetsVisibility(c: Call, tenant: string, doc: string) {
    && c.SetVisibilityCall? && c.tenant == tenant && c.doc == doc && tenant != "" && doc != ""
    && (c.visibility == "public" || c.visibility == "restricted")
  }

  lemma DecidesExactly(c: Call, k: Triple)
    ensures Decides(c, k) <==> Grants(c, k) || Takes(c, k)
  {
    if k.tenant != "" && k.user != "" {
      match c
      case SetVisibilityCall(_, _, _) =>
      case GrantCall(t, d, u, _, _, _) => assert k == Triple(t, d, u) <==> k.tenant == t && k.doc == d && k.user == u;
      case RevokeCall(t, d, u) => assert k == Triple(t, d, u) <==> k.tenant == t && k.doc == d && k.user == u;
      case RevokeAllCall(_, _) =>
    }
  }

  /** The i-th call grants `k`, no later one grants it anew or takes it away, and it has not ended at `now`. */
  ghost predicate HeldSince(calls: seq<Call>, p: Precision, k: Triple, now: Time, i: nat) {
    && i < |calls| && Grants(calls[i], k)
    && (forall j :: i < j < |calls| ==> !Grants(calls[j], k) && !Takes(calls[j], k))
    && (calls[i].validTo.None? ||
        if p.Exact? then now < calls[i].validTo.value
        else now / 1_000_000_000 < calls[i].validTo.value / 1_000_000_000)
  }

  ghost predicate Held(calls: seq<Call>, p: Precision, k: Triple, now: Time) {
    exists i: nat :: HeldSince(calls, p, k, now, i)
  }

  /** The i-th call is the last to set the visibility of the document, and restricts it. */
  ghost predicate RestrictedSince(calls: seq<Call>, tenant: string, doc: string, i: nat) {
    && i < |calls| && SetsVisibility(calls[i], tenant, doc) && calls[i].visibility == "restricted"
    && forall j :: i < j < |calls| ==> !SetsVisibility(calls[j], tenant, doc)
  }

  ghost predicate Restricted(calls: seq<Call>, tenant: string, doc: string) {
    exists i: nat :: RestrictedSince(calls, tenant, doc, i)
  }

  /** A grant holds in the ledger exactly if some call of the run granted it and nothing ended it since. */
  lemma HeldExactly(calls: seq<Call>, p: Precision, k: Triple, now: Time)
    ensures Holds(Run(EMPTY, calls), p, k, now) <==> Held(calls, p, k, now)
  {
    forall c {
      DecidesExactly(c, k);
    }
    if Holds(Run(EMPTY, calls), p, k, now) {
      var i := GrantSource(calls, k);
      assert HeldSince(calls, p, k, now, i);
    }
    if i: nat :| HeldSince(calls, p, k, now, i) {
      assert LastDecided(calls, k, i);
      LastWriteWins(calls, i, k);
    }
  }

  lemma {:induction false} RestrictedExactly(calls: seq<Call>, tenant: string, doc: string)
    ensures (tenant, doc) in Run(EMPTY, calls).restricted <==> Restricted(calls, tenant, doc)
    decreases |calls|
  {
    if calls != [] {
      var n := |calls| - 1;
      var before, c := calls[..n], calls[n];
      RestrictedExactly(before, tenant, doc);
      assert forall j :: 0 <= j < n ==> before[j] == calls[j];
      if i: nat :| RestrictedSince(before, tenant, doc, i) {
        assert !SetsVisibility(c, tenant, doc) ==> RestrictedSince(calls, tenant, doc, i);
      }
      if i: nat :| RestrictedSince(calls, tenant, doc, i) {
        assert i < n ==> RestrictedSince(before, tenant, doc, i);
      }
      if SetsVisibility(c, tenant, doc) && c.visibility == "restricted" {
        assert RestrictedSince(calls, tenant, doc, n);
      }
    }
  }

  // ----- queries -----

  /** A document passes if it is not restricted or the user holds a grant; nothing passes with an empty ID. */
  ghost predicate Passes(
      calls: seq<Call>, p: Precision, tenant: string, user: string, now: Time, doc: string)
  {
    && tenant != "" && user != "" && doc != ""
    && (!Restricted(calls, tenant, doc) || Held(calls, p, Triple(tenant, doc, user), now))
  }

  lemma {:induction false} FilterCounts(docs: seq<string>, keep: string -> bool, d: string)
    ensures multiset(Filter(docs, keep))[d] == if keep(d) then multiset(docs)[d] else 0
    decreases |docs|
  {
    if docs != [] {
      FilterCounts(docs[1..], keep, d);
      assert docs == [docs[0]] + docs[1..];
    }
  }

  /** Positions of the documents kept, in order: the answer is `docs` at these positions. */
  ghost predicate PicksInOrder(docs: seq<string>, picks: seq<nat>, answer: seq<string>) {
    && |picks| == |answer|
    && (forall i :: 0 <= i < |picks| ==> picks[i] < |docs| && answer[i] == docs[picks[i]])
    && forall i, j :: 0 <= i < j < |picks| ==> picks[i] < picks[j]
  }

  lemma {:induction false} FilterPicks(docs: seq<string>, keep: string -> bool) returns (picks: seq<nat>)
    ensures PicksInOrder(docs, picks, Filter(docs, keep))
    decreases |docs|
  {
    if docs == [] {
      return [];
    }
    var n := |docs| - 1;
    picks := FilterPicks(docs[..n], keep);
    FilterAppend(docs[..n], docs[n], keep);
    assert docs[..n] + [docs[n]] == docs;
    if keep(docs[n]) {
      picks := picks + [n];
    }
  }

  /**
   A batch check after any run: every document that passes is answered as often as it was asked
   for, no other one is, and the answer keeps the order of the question.
   */
  lemma CheckBatchExactly(calls: seq<Call>, p: Precision, tenant: string, user: string, docs: seq<string>, now: Time)
      returns (picks: seq<nat>)
    ensures var answer := CheckBatch(Run(EMPTY, calls), p, tenant, user, docs, now);
            && PicksInOrder(docs, picks, answer)
            && forall d :: multiset(answer)[d] ==
                           if Passes(calls, p, tenant, user, now, d) then multiset(docs)[d] else 0
  {
    var l := Run(EMPTY, calls);
    picks := [];
    if tenant != "" && user != "" {
      picks := FilterPicks(docs, Allowed(l, p, tenant, user, now));
      forall d
        ensures multiset(Filter(docs, Allowed(l, p, tenant, user, now)))[d] ==
                if Passes(calls, p, tenant, user, now, d) then multiset(docs)[d] else 0
      {
        FilterCounts(docs, Allowed(l, p, tenant, user, now), d);
        HeldExactly(calls, p, Triple(tenant, d, user), now);
        RestrictedExactly(calls, tenant, d);
      }
    }
  }

  /** The listed documents are those the user holds a grant for, public ones not counted as such. */
  lemma ListGrantsExactly(
      calls: seq<Call>, p: Precision, tenant: string, user: string, now: Time, docs: set<string>)
    ensures ListsGrants(Run(EMPTY, calls), p, tenant, user, now, docs) <==>
            forall d :: d in docs <==> tenant != "" && user != "" && Held(calls, p, Triple(tenant, d, user), now)
  {
    forall d {
      HeldExactly(calls, p, Triple(tenant, d, user), now);
    }
    if tenant == "" || user == "" {
      assert docs == {} <==> forall d :: d !in docs;
    }
  }
}
