/**
 What an access-control store promises (services/acl/internal/acl/store_interface.go):
 a flat ledger in which the last write for a (tenant, document, user) wins, and a
 visibility that is public unless set to restricted. Nothing is ever cleaned up here.
 */
module Ledger {
  import opened Wrappers
  import opened Clock
  import opened Sequences

  /** The zero `time.Time`, 1 January of year 1. */
  const ZERO_TIME: Time := -62_135_596_800 * NANOS_PER_SECOND

  /** `Unix()`: whole seconds, rounded down also before the epoch. */
  function Seconds(t: Time): int {
    t / NANOS_PER_SECOND
  }

  const PUBLIC := "public"
  const RESTRICTED := "restricted"

  datatype Triple = Triple(tenant: string, doc: string, user: string)

  datatype Grant = Permanent | Until(validTo: Time)

  datatype Ledger = Ledger(restricted: set<(string, string)>, grants: map<Triple, Grant>)

  const EMPTY := Ledger({}, map[])

  /** The calls that change a store; `clock` is what the call reads as the current time. */
  datatype Call =
    | SetVisibilityCall(tenant: string, doc: string, visibility: string)
    | GrantCall(tenant: string, doc: string, user: string, validFrom: Time, validTo: Option<Time>, clock: Time)
    | RevokeCall(tenant: string, doc: string, user: string)
    | RevokeAllCall(tenant: string, user: string)

  datatype StoreError = InvalidVisibility | MissingId | InvalidInterval

  /** The argument checks, in the order both stores make them. `validFrom` is checked and then forgotten. */
  function Rejection(c: Call): Option<StoreError> {
    match c
    case SetVisibilityCall(t, d, v) =>
      if v != PUBLIC && v != RESTRICTED then Some(InvalidVisibility)
      else if t == "" || d == "" then Some(MissingId) else None
    case GrantCall(t, d, u, validFrom, validTo, _) =>
      if t == "" || d == "" || u == "" then Some(MissingId)
      else if validFrom != ZERO_TIME && validTo.Some? && validTo.value != ZERO_TIME && validTo.value < validFrom
      then Some(InvalidInterval) else None
    case RevokeCall(t, d, u) => if t == "" || d == "" || u == "" then Some(MissingId) else None
    case RevokeAllCall(t, u) => if t == "" || u == "" then Some(MissingId) else None
  }

  function GrantOf(validTo: Option<Time>): Grant {
    if validTo.None? then Permanent else Until(validTo.value)
  }

  function Apply(l: Ledger, c: Call): Ledger {
    if Rejection(c).Some? then l
    else match c
      case SetVisibilityCall(t, d, v) =>
        l.(restricted := if v == RESTRICTED then l.restricted + {(t, d)} else l.restricted - {(t, d)})
      case GrantCall(t, d, u, _, validTo, _) => l.(grants := l.grants[Triple(t, d, u) := GrantOf(validTo)])
      case RevokeCall(t, d, u) => l.(grants := l.grants - {Triple(t, d, u)})
      case RevokeAllCall(t, u) =>
        l.(grants := map k | k in l.grants && !(k.tenant == t && k.user == u) :: l.grants[k])
  }

  function Run(l: Ledger, calls: seq<Call>): Ledger
    decreases |calls|
  {
    if calls == [] then l else Apply(Run(l, calls[..|calls| - 1]), calls[|calls| - 1])
  }

  /** Does the call decide the grant of `k`? */
  predicate Decides(c: Call, k: Triple) {
    Rejection(c).None? &&
    match c
    case SetVisibilityCall(_, _, _) => false
    case GrantCall(t, d, u, _, _, _) => k == Triple(t, d, u)
    case RevokeCall(t, d, u) => k == Triple(t, d, u)
    case RevokeAllCall(t, u) => k.tenant == t && k.user == u
  }

  /** The i-th call decides the grant of `k`, and no later one does. */
  ghost predicate LastDecided(calls: seq<Call>, k: Triple, i: nat) {
    i < |calls| && Decides(calls[i], k) && forall j :: i < j < |calls| ==> !Decides(calls[j], k)
  }

  /** The last write wins: `k` holds what the last call deciding it granted, and nothing if that was a revocation. */
  lemma {:induction false} LastWriteWins(calls: seq<Call>, i: nat, k: Triple)
    requires LastDecided(calls, k, i)
    ensures var g := Run(EMPTY, calls).grants;
            if calls[i].GrantCall? then k in g && g[k] == GrantOf(calls[i].validTo) else k !in g
    decreases |calls|
  {
    var n := |calls| - 1;
    if i < n {
      LastWriteWins(calls[..n], i, k);
      assert !Decides(calls[n], k);
    }
  }

  /** Every grant in the ledger was granted by the last call that decided it. */
  lemma {:induction false} GrantSource(calls: seq<Call>, k: Triple) returns (i: nat)
    requires k in Run(EMPTY, calls).grants
    ensures LastDecided(calls, k, i) && calls[i].GrantCall?
    ensures Run(EMPTY, calls).grants[k] == GrantOf(calls[i].validTo)
    decreases |calls|
  {
    i := |calls| - 1;
    if !Decides(calls[i], k) {
      i := GrantSource(calls[..i], k);
    }
  }

  /**
   The expiring grant that decides `k`, the i-th call, is followed by the j-th, which drops it
   from a store; `drops` tells which calls do, for a grant that ends at the given time.
   */
  ghost predicate DroppedBy(calls: seq<Call>, k: Triple, drops: (Call, Triple, Time) -> bool, i: nat, j: nat) {
    && i < j < |calls| && LastDecided(calls, k, i) && calls[i].GrantCall? && calls[i].validTo.Some?
    && drops(calls[j], k, calls[i].validTo.value)
  }

  ghost predicate Dropped(calls: seq<Call>, k: Triple, drops: (Call, Triple, Time) -> bool) {
    exists i: nat, j: nat :: DroppedBy(calls, k, drops, i, j)
  }

  lemma DroppedHeld(calls: seq<Call>, k: Triple, drops: (Call, Triple, Time) -> bool)
    requires Dropped(calls, k, drops)
    ensures var g := Run(EMPTY, calls).grants; k in g && g[k].Until?
  {
    var i: nat, j: nat :| DroppedBy(calls, k, drops, i, j);
    LastWriteWins(calls, i, k);
  }

  lemma LastDecidedBefore(calls: seq<Call>, k: Triple, i: nat)
    requires calls != [] && !Decides(calls[|calls| - 1], k)
    ensures LastDecided(calls, k, i) <==> LastDecided(calls[..|calls| - 1], k, i)
  {
    var before := calls[..|calls| - 1];
    assert forall j :: 0 <= j < |before| ==> before[j] == calls[j];
  }

  /** A grant is dropped exactly if it was dropped before, or is in force and dropped by the last call. */
  lemma DroppedLast(calls: seq<Call>, k: Triple, drops: (Call, Triple, Time) -> bool)
    requires calls != []
    ensures var n := |calls| - 1; var g := Run(EMPTY, calls[..n]).grants;
            Dropped(calls, k, drops) <==>
            !Decides(calls[n], k) &&
            (Dropped(calls[..n], k, drops) || (k in g && g[k].Until? && drops(calls[n], k, g[k].validTo)))
  {
    var n := |calls| - 1;
    var before := calls[..n];
    var g := Run(EMPTY, before).grants;
    if !Decides(calls[n], k) {
      if i: nat, j: nat :| DroppedBy(calls, k, drops, i, j) {
        LastDecidedBefore(calls, k, i);
        LastWriteWins(before, i, k);
        assert j < n ==> DroppedBy(before, k, drops, i, j);
      }
      if i: nat, j: nat :| DroppedBy(before, k, drops, i, j) {
        LastDecidedBefore(calls, k, i);
        assert DroppedBy(calls, k, drops, i, j);
      }
      if k in g && g[k].Until? && drops(calls[n], k, g[k].validTo) {
        var i := GrantSource(before, k);
        LastDecidedBefore(calls, k, i);
        assert DroppedBy(calls, k, drops, i, n);
      }
    }
  }

  /** Is `limit` at or after every time at which the run may have cleaned something up? */
  predicate ClocksUpTo(calls: seq<Call>, limit: Time) {
    forall i :: 0 <= i < |calls| && calls[i].GrantCall? ==> calls[i].clock <= limit
  }

  // ----- queries -----

  /** The in-memory store compares times exactly, the Redis store by whole seconds. */
  datatype Precision = Exact | WholeSeconds

  predicate Live(p: Precision, now: Time, validTo: Time) {
    if p.Exact? then now < validTo else Seconds(now) < Seconds(validTo)
  }

  /** The time a query is about: a zero `now` means the current time. */
  function QueryTime(now: Time, clock: Time): Time {
    if now == ZERO_TIME then clock else now
  }

  predicate Holds(l: Ledger, p: Precision, k: Triple, now: Time) {
    k in l.grants && (l.grants[k].Permanent? || Live(p, now, l.grants[k].validTo))
  }

  predicate Allows(l: Ledger, p: Precision, k: Triple, now: Time) {
    (k.tenant, k.doc) !in l.restricted || Holds(l, p, k, now)
  }

  /** The elements that satisfy `keep`, in order and with their repetitions. */
  function Filter(docs: seq<string>, keep: string -> bool): seq<string> {
    if docs == [] then [] else (if keep(docs[0]) then [docs[0]] else []) + Filter(docs[1..], keep)
  }

  function Allowed(l: Ledger, p: Precision, tenant: string, user: string, now: Time): string -> bool {
    d => d != "" && Allows(l, p, Triple(tenant, d, user), now)
  }

  function CheckBatch(
      l: Ledger, p: Precision, tenant: string, user: string, docs: seq<string>, now: Time): seq<string>
  {
    if tenant == "" || user == "" then [] else Filter(docs, Allowed(l, p, tenant, user, now))
  }

  /** The documents the user holds an explicit grant for. */
  ghost predicate ListsGrants(l: Ledger, p: Precision, tenant: string, user: string, now: Time, docs: set<string>) {
    if tenant == "" || user == "" then docs == {}
    else forall d :: d in docs <==> Holds(l, p, Triple(tenant, d, user), now)
  }

  // ----- laws of Filter -----

  lemma FilterOne(d: string, keep: string -> bool)
    ensures Filter([d], keep) == if keep(d) then [d] else []
  {
    assert [d][1..] == [];
  }

  lemma {:induction false} FilterAppend(docs: seq<string>, d: string, keep: string -> bool)
    ensures Filter(docs + [d], keep) == Filter(docs, keep) + (if keep(d) then [d] else [])
    decreases |docs|
  {
    if docs == [] {
      assert [d][1..] == [];
    } else {
      assert (docs + [d])[1..] == docs[1..] + [d];
      FilterAppend(docs[1..], d, keep);
      AppendAssoc(if keep(docs[0]) then [docs[0]] else [], Filter(docs[1..], keep), if keep(d) then [d] else []);
    }
  }

  lemma {:induction false} FilterCongruent(docs: seq<string>, keep: string -> bool, keep': string -> bool)
    requires forall d :: d in docs ==> keep(d) == keep'(d)
    ensures Filter(docs, keep) == Filter(docs, keep')
    decreases |docs|
  {
    if docs != [] {
      assert docs[0] in docs && forall d :: d in docs[1..] ==> d in docs;
      FilterCongruent(docs[1..], keep, keep');
    }
  }

  lemma {:induction false} FilterTwice(
      docs: seq<string>, keep: string -> bool, also: string -> bool, both: string -> bool)
    requires forall d :: d in docs ==> both(d) == (keep(d) && also(d))
    ensures Filter(Filter(docs, keep), also) == Filter(docs, both)
    decreases |docs|
  {
    if docs != [] {
      assert docs[0] in docs && forall d :: d in docs[1..] ==> d in docs;
      FilterTwice(docs[1..], keep, also, both);
      FilterMaybe(docs[0], keep(docs[0]), Filter(docs[1..], keep), also);
    }
  }

  lemma FilterMaybe(d: string, kept: bool, rest: seq<string>, also: string -> bool)
    ensures Filter((if kept then [d] else []) + rest, also)
         == (if kept && also(d) then [d] else []) + Filter(rest, also)
  {
    if kept {
      assert ([d] + rest)[1..] == rest;
    } else {
      assert [] + rest == rest && [] + Filter(rest, also) == Filter(rest, also);
    }
  }

  /** Stored grants always name a tenant, a document and a user. */
  ghost predicate IdsPresent(l: Ledger) {
    forall k :: k in l.grants ==> k.tenant != "" && k.doc != "" && k.user != ""
  }

  lemma {:induction false} RunIdsPresent(calls: seq<Call>)
    ensures IdsPresent(Run(EMPTY, calls))
    decreases |calls|
  {
    if calls != [] {
      RunIdsPresent(calls[..|calls| - 1]);
    }
  }
}
