/** The key builders of the Redis store and exactly when they keep keys apart. */
module RedisKeys {
  import opened Sequences

  /** What a key is about. */
  datatype Key =
    | Visibility(tenant: string, doc: string)
    | DocPermanent(tenant: string, doc: string)
    | DocExpiring(tenant: string, doc: string)
    | UserPermanent(tenant: string, user: string)
    | UserExpiring(tenant: string, user: string)

  function KeyVisibility(prefix: string, tenant: string, doc: string): string {
    prefix + "t:" + tenant + ":doc:" + doc + ":vis"
  }

  function KeyPermanent(prefix: string, tenant: string, doc: string): string {
    prefix + "t:" + tenant + ":doc:" + doc + ":perm"
  }

  function KeyExpiring(prefix: string, tenant: string, doc: string): string {
    prefix + "t:" + tenant + ":doc:" + doc + ":exp"
  }

  function KeyUserPermanent(prefix: string, tenant: string, user: string): string {
    prefix + "t:" + tenant + ":u:" + user + ":perm"
  }

  function KeyUserExpiring(prefix: string, tenant: string, user: string): string {
    prefix + "t:" + tenant + ":u:" + user + ":exp"
  }

  function Render(prefix: string, k: Key): string {
    match k
    case Visibility(t, d) => KeyVisibility(prefix, t, d)
    case DocPermanent(t, d) => KeyPermanent(prefix, t, d)
    case DocExpiring(t, d) => KeyExpiring(prefix, t, d)
    case UserPermanent(t, u) => KeyUserPermanent(prefix, t, u)
    case UserExpiring(t, u) => KeyUserExpiring(prefix, t, u)
  }

  /** The keys of a document and of a user, spelled out. */
  lemma DocKeyLayout()
    ensures KeyVisibility("acl:", "T", "D") == "acl:t:T:doc:D:vis"
    ensures KeyPermanent("acl:", "T", "D") == "acl:t:T:doc:D:perm"
    ensures KeyExpiring("acl:", "T", "D") == "acl:t:T:doc:D:exp"
  {
  }

  lemma UserKeyLayout()
    ensures KeyUserPermanent("acl:", "T", "U") == "acl:t:T:u:U:perm"
    ensures KeyUserExpiring("acl:", "T", "U") == "acl:t:T:u:U:exp"
  {
  }

  // ----- the parts of a key -----

  function Section(k: Key): string {
    if k.UserPermanent? || k.UserExpiring? then ":u:" else ":doc:"
  }

  function Suffix(k: Key): string {
    if k.Visibility? then ":vis" else if k.DocPermanent? || k.UserPermanent? then ":perm" else ":exp"
  }

  function Id(k: Key): string {
    if k.UserPermanent? || k.UserExpiring? then k.user else k.doc
  }

  /** What identifies the tenant and the section in a key. */
  function Head(tenant: string, section: string): string {
    tenant + section
  }

  lemma RenderParts(prefix: string, k: Key)
    ensures Render(prefix, k) == (prefix + "t:") + (Head(k.tenant, Section(k)) + (Id(k) + Suffix(k)))
  {
    AppendAssoc(prefix + "t:", k.tenant, Section(k));
    AppendAssoc(prefix + "t:", Head(k.tenant, Section(k)), Id(k));
    AppendAssoc(prefix + "t:", Head(k.tenant, Section(k)) + Id(k), Suffix(k));
    AppendAssoc(Head(k.tenant, Section(k)), Id(k), Suffix(k));
  }

  predicate Comparable(a: string, b: string) {
    a <= b || b <= a
  }

  /** Can keys of the two tenants coincide? */
  predicate Confusable(t1: string, t2: string) {
    t1 != t2 && (
      Comparable(Head(t1, ":doc:"), Head(t2, ":doc:")) || Comparable(Head(t1, ":doc:"), Head(t2, ":u:"))
      || Comparable(Head(t1, ":u:"), Head(t2, ":doc:")) || Comparable(Head(t1, ":u:"), Head(t2, ":u:")))
  }

  lemma PrefixesComparable(a: string, b: string, x: string, y: string)
    requires a + x == b + y
    ensures Comparable(a, b)
  {
    if |a| <= |b| {
      assert b[..|a|] == (b + y)[..|a|] == a;
    } else {
      assert a[..|b|] == (a + x)[..|b|] == b;
    }
  }

  lemma SameEnds(x: string, s: string, y: string, r: string)
    requires s in {":vis", ":perm", ":exp"} && r in {":vis", ":perm", ":exp"}
    requires x + s == y + r
    ensures x == y && s == r
  {
    var all := x + s;
    assert all[|all| - 1] == s[|s| - 1] == r[|r| - 1];
    assert s == r;
    assert x == all[..|all| - |s|] == y;
  }

  /** A key tells whether it is about visibility, permanent or expiring grants. */
  lemma SameSuffix(prefix: string, k1: Key, k2: Key)
    requires Render(prefix, k1) == Render(prefix, k2)
    ensures Suffix(k1) == Suffix(k2)
  {
    var start := prefix + "t:";
    assert Render(prefix, k1) == (start + k1.tenant + Section(k1) + Id(k1)) + Suffix(k1);
    assert Render(prefix, k2) == (start + k2.tenant + Section(k2) + Id(k2)) + Suffix(k2);
    SameEnds(start + k1.tenant + Section(k1) + Id(k1), Suffix(k1),
             start + k2.tenant + Section(k2) + Id(k2), Suffix(k2));
  }

  /** Equal keys have the same tenant, unless the two tenants are confusable, and then are the same key. */
  lemma RenderInjective(prefix: string, k1: Key, k2: Key)
    requires Render(prefix, k1) == Render(prefix, k2) && !Confusable(k1.tenant, k2.tenant)
    ensures k1 == k2
  {
    RenderParts(prefix, k1);
    RenderParts(prefix, k2);
    var h1, h2 := Head(k1.tenant, Section(k1)), Head(k2.tenant, Section(k2));
    var r1, r2 := Id(k1) + Suffix(k1), Id(k2) + Suffix(k2);
    AppendCancel(prefix + "t:", h1 + r1, h2 + r2);
    PrefixesComparable(h1, h2, r1, r2);
    var t := k1.tenant;
    assert k2.tenant == t;
    assert (h1 + r1)[|t|..][1] == Section(k1)[1] && (h2 + r2)[|t|..][1] == Section(k2)[1];
    assert Section(k1) == Section(k2);
    AppendCancel(h1, r1, r2);
    SameEnds(Id(k1), Suffix(k1), Id(k2), Suffix(k2));
  }

  /** Tenant IDs without colons are never confusable; nothing is asked of document and user IDs. */
  lemma ColonFreeApart(t1: string, t2: string)
    requires ':' !in t1 && ':' !in t2
    ensures !Confusable(t1, t2)
  {
    if t1 != t2 {
      NotComparable(t1, ":doc:", t2, ":doc:");
      NotComparable(t1, ":doc:", t2, ":u:");
      NotComparable(t1, ":u:", t2, ":doc:");
      NotComparable(t1, ":u:", t2, ":u:");
    }
  }

  lemma NotComparable(t1: string, s1: string, t2: string, s2: string)
    requires ':' !in t1 && ':' !in t2 && t1 != t2
    requires s1 in {":doc:", ":u:"} && s2 in {":doc:", ":u:"}
    ensures !Comparable(Head(t1, s1), Head(t2, s2))
  {
    var h1, h2 := Head(t1, s1), Head(t2, s2);
    assert h1[|t1|] == ':' && h2[|t2|] == ':';
    assert h1[..|t1|] == t1 && h2[..|t2|] == t2;
  }

  function SectionKey(tenant: string, section: string, id: string): Key {
    if section == ":u:" then UserPermanent(tenant, id) else DocPermanent(tenant, id)
  }

  /** Comparable heads can be completed to the same string. */
  lemma SameStem(t1: string, s1: string, t2: string, s2: string) returns (id1: string, id2: string)
    requires Comparable(Head(t1, s1), Head(t2, s2))
    ensures id1 != "" && id2 != "" && Head(t1, s1) + id1 == Head(t2, s2) + id2
  {
    var h1, h2 := Head(t1, s1), Head(t2, s2);
    if h1 <= h2 {
      id1, id2 := h2[|h1|..] + "x", "x";
      AppendAssoc(h1, h2[|h1|..], "x");
    } else {
      id1, id2 := "x", h1[|h2|..] + "x";
      AppendAssoc(h2, h1[|h2|..], "x");
    }
  }

  /** Keys with the same stem and suffix are the same string. */
  lemma StemRender(prefix: string, k1: Key, k2: Key)
    requires Head(k1.tenant, Section(k1)) + Id(k1) == Head(k2.tenant, Section(k2)) + Id(k2)
    requires Suffix(k1) == Suffix(k2)
    ensures Render(prefix, k1) == Render(prefix, k2)
  {
    RenderParts(prefix, k1);
    RenderParts(prefix, k2);
    AppendAssoc(Head(k1.tenant, Section(k1)), Id(k1), Suffix(k1));
    AppendAssoc(Head(k2.tenant, Section(k2)), Id(k2), Suffix(k2));
  }

  /** Some key of `t1` and some key of `t2`, both with nonempty IDs, are the same string. */
  ghost predicate Collide(prefix: string, t1: string, t2: string) {
    exists k1: Key, k2: Key ::
      k1.tenant == t1 && k2.tenant == t2 && Id(k1) != "" && Id(k2) != "" && Render(prefix, k1) == Render(prefix, k2)
  }

  lemma ComparableCollide(prefix: string, t1: string, s1: string, t2: string, s2: string)
    requires s1 in {":doc:", ":u:"} && s2 in {":doc:", ":u:"}
    requires Comparable(Head(t1, s1), Head(t2, s2))
    ensures Collide(prefix, t1, t2)
  {
    var id1, id2 := SameStem(t1, s1, t2, s2);
    StemRender(prefix, SectionKey(t1, s1, id1), SectionKey(t2, s2, id2));
  }

  /** Two tenants have keys in common exactly when they are confusable. */
  lemma CollisionsExactly(prefix: string, t1: string, t2: string)
    requires t1 != t2
    ensures Confusable(t1, t2) <==> Collide(prefix, t1, t2)
  {
    if Confusable(t1, t2) {
      if Comparable(Head(t1, ":doc:"), Head(t2, ":doc:")) {
        ComparableCollide(prefix, t1, ":doc:", t2, ":doc:");
      } else if Comparable(Head(t1, ":doc:"), Head(t2, ":u:")) {
        ComparableCollide(prefix, t1, ":doc:", t2, ":u:");
      } else if Comparable(Head(t1, ":u:"), Head(t2, ":doc:")) {
        ComparableCollide(prefix, t1, ":u:", t2, ":doc:");
      } else {
        ComparableCollide(prefix, t1, ":u:", t2, ":u:");
      }
    } else if Collide(prefix, t1, t2) {
      var k1: Key, k2: Key :| k1.tenant == t1 && k2.tenant == t2 && Render(prefix, k1) == Render(prefix, k2);
      RenderInjective(prefix, k1, k2);
    }
  }
}
