/** Why the tenants in use have to be apart: any two that are not make the Redis store answer wrongly. */
module RedisTenants {
  import opened Wrappers
  import opened Clock
  import opened Ledger
  import opened RedisServer
  import opened RedisKeys
  import opened RedisStore
  import opened RedisIndex
  import opened RedisRefinement

  /** A query after completed calls of these tenants, about a time not before their clocks. */
  ghost predicate Asked(
      prefix: string, tenants: iset<string>, calls: seq<Call>, ks: Keyspace, tenant: string, now: Time)
  {
    TenantsIn(calls, tenants) && ClocksUpTo(calls, now) && Reaches(prefix, calls, ks) && tenant in tenants
  }

  predicate AnswersLikeLedger(
      prefix: string, calls: seq<Call>, ks: Keyspace, tenant: string, user: string, docs: seq<string>, now: Time)
  {
    RedisCheck(prefix, ks, tenant, user, docs, now)
      == CheckBatch(Run(EMPTY, calls), WholeSeconds, tenant, user, docs, now)
  }

  lemma AnswersAlone(
      prefix: string, calls: seq<Call>, ks: Keyspace, tenant: string, user: string, doc: string, now: Time)
    requires tenant != "" && user != "" && doc != ""
    ensures AnswersLikeLedger(prefix, calls, ks, tenant, user, [doc], now) <==>
            (RedisAllows(prefix, ks, Triple(tenant, doc, user), now) <==>
             Allows(Run(EMPTY, calls), WholeSeconds, Triple(tenant, doc, user), now))
  {
    FilterOne(doc, RedisAllowed(prefix, ks, tenant, user, now));
    FilterOne(doc, Allowed(Run(EMPTY, calls), WholeSeconds, tenant, user, now));
  }

  lemma ReachesNext(prefix: string, calls: seq<Call>, before: Keyspace, c: Call, ks: Keyspace)
    requires Reaches(prefix, calls, before) && Step(prefix, before, c, ks)
    ensures Reaches(prefix, calls + [c], ks)
  {
    assert (calls + [c])[..|calls|] == calls;
  }

  // ----- two documents with one visibility -----

  function Restrict(tenant: string, doc: string): Call {
    SetVisibilityCall(tenant, doc, RESTRICTED)
  }

  lemma RestrictedSpace(prefix: string, tenant: string, doc: string) returns (ks: Keyspace)
    requires tenant != "" && doc != ""
    ensures Reaches(prefix, [Restrict(tenant, doc)], ks)
    ensures ks == map[KeyVisibility(prefix, tenant, doc) := Text(RESTRICTED)]
  {
    var commands := Rendered(prefix, [VisibilityWrite(tenant, doc, RESTRICTED)]);
    ks := ExecAll(map[], commands);
    assert ExecUpTo(map[], commands, 0) == map[];
    ReachesNext(prefix, [], map[], Restrict(tenant, doc), ks);
    assert [] + [Restrict(tenant, doc)] == [Restrict(tenant, doc)];
  }

  /** Restricting a document of `a` restricts one of `b`. */
  lemma SharedVisibility(prefix: string, a: string, i: string, b: string, j: string) returns (ks: Keyspace)
    requires a != "" && b != "" && i != "" && j != "" && a != b
    requires Head(a, ":doc:") + i == Head(b, ":doc:") + j
    ensures Asked(prefix, iset{a, b}, [Restrict(a, i)], ks, b, 0)
    ensures !AnswersLikeLedger(prefix, [Restrict(a, i)], ks, b, "u", [j], 0)
  {
    ks := RestrictedSpace(prefix, a, i);
    StemRender(prefix, Visibility(a, i), Visibility(b, j));
    AnswersAlone(prefix, [Restrict(a, i)], ks, b, "u", j, 0);
    assert [Restrict(a, i)][..0] == [];
  }

  // ----- a grant that shows on the user side of another tenant -----

  function Permanently(k: Triple): Call {
    GrantCall(k.tenant, k.doc, k.user, ZERO_TIME, None, 0)
  }

  lemma VisibilityFits(prefix: string, tenants: iset<string>, tenant: string, doc: string, ks: Keyspace)
    requires ks == map[KeyVisibility(prefix, tenant, doc) := Text(RESTRICTED)]
    ensures Typed(prefix, tenants, ks)
  {
    forall key: Key | Look(ks, Render(prefix, key)).Some?
      ensures key.Visibility?
    {
      SameSuffix(prefix, key, Visibility(tenant, doc));
    }
  }

  /** The calls that mislead: a document of `b` is restricted, and `a` grants permanently. */
  function Misleading(b: string, doc: string, k: Triple): seq<Call> {
    [Restrict(b, doc), Permanently(k)]
  }

  lemma MisleadingSpace(prefix: string, b: string, doc: string, k: Triple) returns (ks: Keyspace)
    requires b != "" && doc != "" && k.tenant != "" && k.doc != "" && k.user != ""
    ensures Reaches(prefix, Misleading(b, doc, k), ks)
    ensures EntryAt(prefix, ks, k) == Entry(true, true, None, None)
  {
    var before := RestrictedSpace(prefix, b, doc);
    VisibilityFits(prefix, iset{k.tenant}, b, doc, before);
    ks := SomeStep(prefix, before, Permanently(k));
    StepEffect(prefix, iset{k.tenant}, before, Permanently(k), ks);
    TripleParts(k, Triple(k.tenant, k.doc, k.user));
    ReachesNext(prefix, [Restrict(b, doc)], before, Permanently(k), ks);
    assert [Restrict(b, doc)] + [Permanently(k)] == Misleading(b, doc, k);
  }

  lemma MisleadingLedger(b: string, doc: string, k: Triple, asked: Triple)
    requires b != "" && doc != "" && k.tenant != "" && k.doc != "" && k.user != ""
    requires asked.tenant == b != k.tenant && asked.doc == doc
    ensures !Allows(Run(EMPTY, Misleading(b, doc, k)), WholeSeconds, asked, 0)
  {
    var calls := Misleading(b, doc, k);
    assert calls[..1][..0] == [];
    assert Run(EMPTY, calls[..1]) == Apply(EMPTY, calls[0]);
    assert Run(EMPTY, calls) == Apply(Run(EMPTY, calls[..1]), calls[1]);
  }

  lemma MisleadingAsked(prefix: string, b: string, doc: string, k: Triple, ks: Keyspace)
    requires Reaches(prefix, Misleading(b, doc, k), ks)
    ensures Asked(prefix, iset{k.tenant, b}, Misleading(b, doc, k), ks, b, 0)
  {
  }

  lemma MemberHolds(prefix: string, ks: Keyspace, k: Triple, key: Key, member: string, asked: Triple)
    requires EntryAt(prefix, ks, k) == Entry(true, true, None, None)
    requires (key == DocPermanent(k.tenant, k.doc) && member == k.user) ||
             (key == UserPermanent(k.tenant, k.user) && member == k.doc)
    requires Render(prefix, key) == KeyUserPermanent(prefix, asked.tenant, asked.user) && asked.doc == member
    ensures RedisAllows(prefix, ks, asked, 0)
  {
    assert SIsMember(ks, Render(prefix, key), member);
  }

  /** The grant's side `key` is the user side of user `j` of `b`, who then seems to hold `member`. */
  lemma SharedUserSide(prefix: string, b: string, j: string, k: Triple, key: Key, member: string) returns (ks: Keyspace)
    requires b != "" && j != "" && k.tenant != "" && k.doc != "" && k.user != "" && k.tenant != b
    requires (key == DocPermanent(k.tenant, k.doc) && member == k.user) ||
             (key == UserPermanent(k.tenant, k.user) && member == k.doc)
    requires Render(prefix, key) == KeyUserPermanent(prefix, b, j)
    ensures var calls := Misleading(b, member, k);
            Asked(prefix, iset{k.tenant, b}, calls, ks, b, 0) &&
            !AnswersLikeLedger(prefix, calls, ks, b, j, [member], 0)
  {
    ks := MisleadingSpace(prefix, b, member, k);
    MisleadingAsked(prefix, b, member, k, ks);
    MemberHolds(prefix, ks, k, key, member, Triple(b, member, j));
    MisleadingLedger(b, member, k, Triple(b, member, j));
    AnswersAlone(prefix, Misleading(b, member, k), ks, b, j, member, 0);
  }

  // ----- any two confusable tenants -----

  /** Calls of two tenants and a query that is answered unlike the ledger. */
  ghost predicate Misled(prefix: string, tenants: iset<string>) {
    exists calls, ks, tenant, user, docs, now ::
      Asked(prefix, tenants, calls, ks, tenant, now) &&
      !AnswersLikeLedger(prefix, calls, ks, tenant, user, docs, now)
  }

  lemma ComparableMisled(prefix: string, a: string, s1: string, b: string, s2: string)
    requires a != "" && b != "" && a != b && s1 in {":doc:", ":u:"} && s2 in {":doc:", ":u:"}
    requires Comparable(Head(a, s1), Head(b, s2))
    ensures Misled(prefix, iset{a, b})
  {
    var i, j := SameStem(a, s1, b, s2);
    if s1 == ":doc:" && s2 == ":doc:" {
      var ks := SharedVisibility(prefix, a, i, b, j);
    } else if s1 == ":doc:" {
      DocOnUserSide(prefix, a, i, b, j);
    } else if s2 == ":u:" {
      UserOnUserSide(prefix, a, i, b, j);
    } else {
      DocOnUserSide(prefix, b, j, a, i);
      assert iset{b, a} == iset{a, b};
    }
  }

  lemma DocOnUserSide(prefix: string, a: string, i: string, b: string, j: string)
    requires a != "" && b != "" && i != "" && j != "" && a != b
    requires Head(a, ":doc:") + i == Head(b, ":u:") + j
    ensures Misled(prefix, iset{a, b})
  {
    StemRender(prefix, DocPermanent(a, i), UserPermanent(b, j));
    var ks := SharedUserSide(prefix, b, j, Triple(a, i, "x"), DocPermanent(a, i), "x");
  }

  lemma UserOnUserSide(prefix: string, a: string, i: string, b: string, j: string)
    requires a != "" && b != "" && i != "" && j != "" && a != b
    requires Head(a, ":u:") + i == Head(b, ":u:") + j
    ensures Misled(prefix, iset{a, b})
  {
    StemRender(prefix, UserPermanent(a, i), UserPermanent(b, j));
    var ks := SharedUserSide(prefix, b, j, Triple(a, "x", i), UserPermanent(a, i), "x");
  }

  lemma ConfusableMisled(prefix: string, a: string, b: string)
    requires a != "" && b != "" && Confusable(a, b)
    ensures Misled(prefix, iset{a, b})
  {
    if Comparable(Head(a, ":doc:"), Head(b, ":doc:")) {
      ComparableMisled(prefix, a, ":doc:", b, ":doc:");
    } else if Comparable(Head(a, ":doc:"), Head(b, ":u:")) {
      ComparableMisled(prefix, a, ":doc:", b, ":u:");
    } else if Comparable(Head(a, ":u:"), Head(b, ":doc:")) {
      ComparableMisled(prefix, a, ":u:", b, ":doc:");
    } else {
      ComparableMisled(prefix, a, ":u:", b, ":u:");
    }
  }

  lemma MisledMore(prefix: string, some: iset<string>, all: iset<string>)
    requires Misled(prefix, some) && some <= all
    ensures Misled(prefix, all)
  {
    var calls, ks, tenant, user, docs, now :|
      Asked(prefix, some, calls, ks, tenant, now) &&
      !AnswersLikeLedger(prefix, calls, ks, tenant, user, docs, now);
    assert Asked(prefix, all, calls, ks, tenant, now);
  }

  lemma ApartAnswers(
      prefix: string, tenants: iset<string>, calls: seq<Call>, ks: Keyspace,
      tenant: string, user: string, docs: seq<string>, now: Time)
    requires Apart(tenants - iset{""}) && Asked(prefix, tenants, calls, ks, tenant, now)
    ensures AnswersLikeLedger(prefix, calls, ks, tenant, user, docs, now)
  {
    if tenant != "" {
      CheckBatchRefines(prefix, tenants - iset{""}, calls, ks, now, tenant, user, docs, now);
    }
  }

  /**
   The Redis store answers every query of these tenants like the ledger exactly if no two of
   them, the empty ID aside, are confusable.
   */
  lemma RefinesExactly(prefix: string, tenants: iset<string>)
    ensures Apart(tenants - iset{""}) <==> !Misled(prefix, tenants)
  {
    if !Apart(tenants - iset{""}) {
      var a, b :| a in tenants - iset{""} && b in tenants - iset{""} && Confusable(a, b);
      ConfusableMisled(prefix, a, b);
      MisledMore(prefix, iset{a, b}, tenants);
    } else if Misled(prefix, tenants) {
      var calls, ks, tenant, user, docs, now :|
        Asked(prefix, tenants, calls, ks, tenant, now) &&
        !AnswersLikeLedger(prefix, calls, ks, tenant, user, docs, now);
      ApartAnswers(prefix, tenants, calls, ks, tenant, user, docs, now);
    }
  }
}
