/** How the two indexes of the Redis store drift apart: exactly which calls leave an entry on one side only. */
module RedisDrift {
  import opened Wrappers
  import opened Clock
  import opened Ledger
  import opened RedisServer
  import opened RedisStore
  import opened RedisIndex
  import opened RedisRefinement

  // ----- the calls that matter to one triple -----

  /** An accepted grant or revocation of `k` itself, which writes both sides. */
  predicate Settles(c: Call, k: Triple) {
    Rejection(c).None? && (c.GrantCall? || c.RevokeCall?) && k == Triple(c.tenant, c.doc, c.user)
  }

  predicate RevokesUser(c: Call, k: Triple) {
    Rejection(c).None? && c.RevokeAllCall? && c.tenant == k.tenant && c.user == k.user
  }

  /** An accepted expiring grant to any user on the document of `k`, with a clock not before the score. */
  predicate CleansDoc(c: Call, k: Triple, score: int) {
    && c.GrantCall? && c.validTo.Some? && Rejection(c).None?
    && c.tenant == k.tenant && c.doc == k.doc && score <= Seconds(c.clock)
  }

  /** The same to the user of `k`, on any document. */
  predicate CleansUser(c: Call, k: Triple, score: int) {
    && c.GrantCall? && c.validTo.Some? && Rejection(c).None?
    && c.tenant == k.tenant && c.user == k.user && score <= Seconds(c.clock)
  }

  /** The i-th call settles `k`, and no later one does. */
  ghost predicate LastSettled(calls: seq<Call>, k: Triple, i: nat) {
    i < |calls| && Settles(calls[i], k) && forall j :: i < j < |calls| ==> !Settles(calls[j], k)
  }

  /** No call after the i-th and before the n-th takes the grant off the user side. */
  ghost predicate UserLeft(calls: seq<Call>, k: Triple, score: int, i: nat, n: nat)
    requires n <= |calls|
  {
    forall j :: i < j < n ==> !CleansUser(calls[j], k, score) && !RevokesUser(calls[j], k)
  }

  /** The same for the document side: a RevokeAllUser reaches it only while the user side has the grant. */
  ghost predicate DocLeft(calls: seq<Call>, k: Triple, score: int, i: nat, n: nat)
    requires n <= |calls|
  {
    forall j :: i < j < n ==>
      !CleansDoc(calls[j], k, score) && !(RevokesUser(calls[j], k) && UserLeft(calls, k, score, i, j))
  }

  /** No call after the i-th revokes everything of the user. */
  ghost predicate NeverRevoked(calls: seq<Call>, k: Triple, i: nat) {
    forall j :: i < j < |calls| ==> !RevokesUser(calls[j], k)
  }

  // ----- both sides, exactly -----

  function ScoreIf(present: bool, score: int): Option<int> {
    if present then Some(score) else None
  }

  /** The entry of `k` when the i-th call was the last to settle it. */
  ghost function EntrySince(calls: seq<Call>, k: Triple, i: nat): Entry
    requires i < |calls|
  {
    if !calls[i].GrantCall? then NO_ENTRY
    else match calls[i].validTo
      case None => Entry(NeverRevoked(calls, k, i), NeverRevoked(calls, k, i), None, None)
      case Some(validTo) =>
        var score, n := Seconds(validTo), |calls|;
        Entry(false, false, ScoreIf(DocLeft(calls, k, score, i, n), score),
              ScoreIf(UserLeft(calls, k, score, i, n), score))
  }

  lemma SettledNow(c: Call, k: Triple, e: Entry)
    requires Settles(c, k)
    ensures CallEffect(c, k, e) ==
            if !c.GrantCall? then NO_ENTRY
            else if c.validTo.None? then Entry(true, true, None, None)
            else Entry(false, false, Some(Seconds(c.validTo.value)), Some(Seconds(c.validTo.value)))
  {
  }

  /** A call that does not settle `k` can only take its scores away, and its permanent grant. */
  lemma UnsettledEffect(c: Call, k: Triple, e: Entry)
    requires !Settles(c, k) && k.doc != "" && e.docPerm == e.userPerm
    ensures var e' := CallEffect(c, k, e);
            && e'.docPerm == e'.userPerm == (e.docPerm && !RevokesUser(c, k))
            && e'.docScore == (if e.docScore.Some? && (CleansDoc(c, k, e.docScore.value) ||
                                 (RevokesUser(c, k) && (e.userPerm || e.userScore.Some?))) then None else e.docScore)
            && e'.userScore == (if e.userScore.Some? && (CleansUser(c, k, e.userScore.value) || RevokesUser(c, k))
                                then None else e.userScore)
  {
    if c.GrantCall? {
      TripleParts(k, Triple(c.tenant, c.doc, c.user));
    }
  }

  lemma LeftLast(calls: seq<Call>, k: Triple, score: int, i: nat)
    requires i < |calls| - 1
    ensures var n := |calls| - 1;
            && (UserLeft(calls, k, score, i, n + 1) <==>
                UserLeft(calls[..n], k, score, i, n) && !CleansUser(calls[n], k, score) && !RevokesUser(calls[n], k))
            && (DocLeft(calls, k, score, i, n + 1) <==>
                DocLeft(calls[..n], k, score, i, n) && !CleansDoc(calls[n], k, score) &&
                !(RevokesUser(calls[n], k) && UserLeft(calls[..n], k, score, i, n)))
            && (NeverRevoked(calls, k, i) <==> NeverRevoked(calls[..n], k, i) && !RevokesUser(calls[n], k))
  {
    var n := |calls| - 1;
    forall m: nat | m <= n
      ensures UserLeft(calls, k, score, i, m) <==> UserLeft(calls[..n], k, score, i, m)
    {
      assert forall j :: i < j < m ==> calls[..n][j] == calls[j];
    }
  }

  /** Both sides of every entry, from the calls alone. */
  lemma {:induction false} EntryExactly(calls: seq<Call>, k: Triple, i: nat)
    requires LastSettled(calls, k, i)
    ensures EntryOf(calls, k) == EntrySince(calls, k, i)
    decreases |calls|
  {
    var n := |calls| - 1;
    if i == n {
      SettledNow(calls[n], k, EntryOf(calls[..n], k));
    } else {
      assert forall j :: 0 <= j < n ==> calls[..n][j] == calls[j];
      EntryExactly(calls[..n], k, i);
      UnsettledEffect(calls[n], k, EntryOf(calls[..n], k));
      if calls[i].GrantCall? && calls[i].validTo.Some? {
        LeftLast(calls, k, Seconds(calls[i].validTo.value), i);
      } else {
        LeftLast(calls, k, 0, i);
      }
    }
  }

  lemma {:induction false} NeverSettled(calls: seq<Call>, k: Triple)
    requires forall j :: 0 <= j < |calls| ==> !Settles(calls[j], k)
    ensures EntryOf(calls, k) == NO_ENTRY
    decreases |calls|
  {
    if calls != [] {
      var n := |calls| - 1;
      assert forall j :: 0 <= j < n ==> calls[..n][j] == calls[j];
      NeverSettled(calls[..n], k);
      if calls[n].GrantCall? {
        TripleParts(k, Triple(calls[n].tenant, calls[n].doc, calls[n].user));
      }
    }
  }

  lemma {:induction false} SomeSettled(calls: seq<Call>, k: Triple) returns (i: Option<nat>)
    ensures i.Some? ==> LastSettled(calls, k, i.value)
    ensures i.None? ==> forall j :: 0 <= j < |calls| ==> !Settles(calls[j], k)
    decreases |calls|
  {
    if calls == [] {
      return None;
    }
    var n := |calls| - 1;
    if Settles(calls[n], k) {
      return Some(n);
    }
    assert forall j :: 0 <= j < n ==> calls[..n][j] == calls[j];
    i := SomeSettled(calls[..n], k);
  }

  // ----- drift -----

  /** The last call to settle `k`, the i-th, granted it until the second `score`. */
  ghost predicate GrantedUntil(calls: seq<Call>, k: Triple, i: nat, score: int) {
    && LastSettled(calls, k, i) && calls[i].GrantCall? && calls[i].validTo.Some?
    && Seconds(calls[i].validTo.value) == score
  }

  /** An entry is left on the document side only. */
  ghost predicate DocSideOnly(calls: seq<Call>, k: Triple) {
    exists i, score :: GrantedUntil(calls, k, i, score) &&
      DocLeft(calls, k, score, i, |calls|) && !UserLeft(calls, k, score, i, |calls|)
  }

  /** An entry is left on the user side only. */
  ghost predicate UserSideOnly(calls: seq<Call>, k: Triple) {
    exists i, score :: GrantedUntil(calls, k, i, score) &&
      UserLeft(calls, k, score, i, |calls|) && !DocLeft(calls, k, score, i, |calls|)
  }

  lemma SidesExactly(calls: seq<Call>, k: Triple)
    ensures var e := EntryOf(calls, k);
            && e.docPerm == e.userPerm
            && (e.docScore.Some? && e.userScore.None? <==> DocSideOnly(calls, k))
            && (e.userScore.Some? && e.docScore.None? <==> UserSideOnly(calls, k))
            && (e.docScore.Some? && e.userScore.Some? ==> e.docScore == e.userScore)
  {
    var last := SomeSettled(calls, k);
    if last.Some? {
      EntryExactly(calls, k, last.value);
      assert forall i: nat :: LastSettled(calls, k, i) ==> i == last.value;
      var c := calls[last.value];
      if c.GrantCall? && c.validTo.Some? {
        assert GrantedUntil(calls, k, last.value, Seconds(c.validTo.value));
      }
    } else {
      NeverSettled(calls, k);
    }
  }

  /**
   The two indexes differ at a triple exactly if its last grant, an expiring one, was taken off
   one side and not off the other; and which side still has it.
   */
  lemma DriftExactly(prefix: string, tenants: iset<string>, calls: seq<Call>, ks: Keyspace, k: Triple)
    requires Apart(tenants) && TenantsIn(calls, tenants) && Reaches(prefix, calls, ks) && k.tenant in tenants
    ensures var e := EntryAt(prefix, ks, k);
            && (e.docPerm == e.userPerm && e.docScore == e.userScore <==>
                !DocSideOnly(calls, k) && !UserSideOnly(calls, k))
            && (e.docScore.Some? && e.userScore.None? <==> DocSideOnly(calls, k))
            && (e.userScore.Some? && e.docScore.None? <==> UserSideOnly(calls, k))
  {
    ReachableEntry(prefix, tenants, calls, ks, k);
    SidesExactly(calls, k);
  }

  // ----- RevokeAllUser -----

  /**
   RevokeAllUser finds documents through the user side only, yet it leaves that user no
   permanent and no live expiring entry on either side; entries of other users and of other
   tenants stay as they were. An ended grant survives it on the document side exactly if the
   user side had lost it before.
   */
  lemma RevokeAllComplete(
      prefix: string, tenants: iset<string>, calls: seq<Call>, ks: Keyspace, limit: Time,
      tenant: string, user: string, ks': Keyspace, k: Triple)
    requires Apart(tenants) && TenantsIn(calls, tenants) && ClocksUpTo(calls, limit) && Reaches(prefix, calls, ks)
    requires tenant in tenants && tenant != "" && user != "" && k.tenant in tenants
    requires Step(prefix, ks, RevokeAllCall(tenant, user), ks')
    ensures var e, e' := EntryAt(prefix, ks, k), EntryAt(prefix, ks', k);
            if k.tenant == tenant && k.user == user then
              && !e'.docPerm && !e'.userPerm && e'.userScore.None?
              && e'.docScore == (if DocSideOnly(calls, k) then e.docScore else None)
              && (e'.docScore.Some? ==> e'.docScore.value <= Seconds(limit))
            else e' == e
  {
    ReachableRefines(prefix, tenants, calls, ks, limit);
    RunIdsPresent(calls);
    StepEffect(prefix, tenants, ks, RevokeAllCall(tenant, user), ks');
    DriftExactly(prefix, tenants, calls, ks, k);
    assert Agrees(EntryAt(prefix, ks, k), Seconds(limit));
    assert Represents(EntryAt(prefix, ks, k), Run(EMPTY, calls), k, Seconds(limit));
  }

  /**
   Grant a document, grant another one to the same user once the first grant has ended, revoke
   all of the user's: the first grant was dropped from the user side by the second, so the
   revocation no longer finds it.
   */
  function LeftoverCalls(k: Triple, other: string, granted: Time, validTo: Time, clock: Time, until: Time): seq<Call> {
    [ GrantCall(k.tenant, k.doc, k.user, ZERO_TIME, Some(validTo), granted),
      GrantCall(k.tenant, other, k.user, ZERO_TIME, Some(until), clock),
      RevokeAllCall(k.tenant, k.user)]
  }

  lemma LeftoverEntry(k: Triple, other: string, granted: Time, validTo: Time, clock: Time, until: Time)
    requires k.tenant != "" && k.doc != "" && k.user != "" && other != "" && other != k.doc
    requires Seconds(validTo) <= Seconds(clock)
    ensures EntryOf(LeftoverCalls(k, other, granted, validTo, clock, until), k)
         == Entry(false, false, Some(Seconds(validTo)), None)
  {
    TripleParts(k, Triple(k.tenant, k.doc, k.user));
    TripleParts(k, Triple(k.tenant, other, k.user));
    var calls := LeftoverCalls(k, other, granted, validTo, clock, until);
    assert calls[..2][..1] == calls[..1] && calls[..1][..0] == [];
    assert EntryOf(calls[..1], k) == CallEffect(calls[0], k, NO_ENTRY);
    assert EntryOf(calls[..2], k) == CallEffect(calls[1], k, EntryOf(calls[..1], k));
  }

  /** The indexes really do drift apart: the ended grant stays on the document side after everything was revoked. */
  lemma DocSideLeftover(
      prefix: string, k: Triple, other: string, granted: Time, validTo: Time, clock: Time, until: Time)
      returns (ks: Keyspace)
    requires k.tenant != "" && k.doc != "" && k.user != "" && other != "" && other != k.doc
    requires Seconds(validTo) <= Seconds(clock)
    ensures Reaches(prefix, LeftoverCalls(k, other, granted, validTo, clock, until), ks)
    ensures EntryAt(prefix, ks, k) == Entry(false, false, Some(Seconds(validTo)), None)
  {
    var calls := LeftoverCalls(k, other, granted, validTo, clock, until);
    ks := SomeReachable(prefix, calls);
    ReachableEntry(prefix, iset{k.tenant}, calls, ks, k);
    LeftoverEntry(k, other, granted, validTo, clock, until);
  }
}
