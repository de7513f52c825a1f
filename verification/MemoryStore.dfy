/** The in-memory store on its nested maps (services/acl/internal/acl/inmemory_store.go). */
module MemoryStore {
  import opened Wrappers
  import opened Clock
  import opened Sequences
  import opened Ledger
  import opened Trees

  /** What the nested maps stand for. */
  datatype Memory = Memory(
    visibility: map<(string, string), string>,
    permanent: set<Triple>,
    expiring: map<Triple, Time>)

  const NO_MEMORY := Memory(map[], {}, map[])

  /** The expiring grants of one document without those that ended before `clock`. */
  function Cleaned(expiring: map<Triple, Time>, tenant: string, doc: string, clock: Time): map<Triple, Time> {
    map k | k in expiring && !(k.tenant == tenant && k.doc == doc && expiring[k] < clock) :: expiring[k]
  }

  /** The effect of a call on the stored facts, opportunistic cleanup included. */
  ghost function MemoryApply(m: Memory, c: Call): Memory {
    if Rejection(c).Some? then m
    else match c
      case SetVisibilityCall(t, d, v) => m.(visibility := m.visibility[(t, d) := v])
      case GrantCall(t, d, u, _, validTo, clock) =>
        var k, cleaned := Triple(t, d, u), Cleaned(m.expiring, t, d, clock);
        if validTo.None? then Memory(m.visibility, m.permanent + {k}, cleaned - {k})
        else Memory(m.visibility, m.permanent - {k}, cleaned[k := validTo.value])
      case RevokeCall(t, d, u) => Memory(m.visibility, m.permanent - {Triple(t, d, u)}, m.expiring - {Triple(t, d, u)})
      case RevokeAllCall(t, u) =>
        var permanent := set k | k in m.permanent && !(k.tenant == t && k.user == u);
        Memory(m.visibility, permanent, WithoutUser(m.expiring, t, u))
  }

  predicate MemoryHolds(m: Memory, k: Triple, now: Time) {
    k in m.permanent || (k in m.expiring && now < m.expiring[k])
  }

  predicate MemoryAllows(m: Memory, k: Triple, now: Time) {
    ((k.tenant, k.doc) in m.visibility ==> m.visibility[(k.tenant, k.doc)] == PUBLIC) || MemoryHolds(m, k, now)
  }

  function MemoryAllowed(m: Memory, tenant: string, user: string, now: Time): string -> bool {
    d => d != "" && MemoryAllows(m, Triple(tenant, d, user), now)
  }

  function MemoryCheck(m: Memory, tenant: string, user: string, docs: seq<string>, now: Time): seq<string> {
    if tenant == "" || user == "" then [] else Filter(docs, MemoryAllowed(m, tenant, user, now))
  }

  /** Does the list of the user's grants at `now` name the document? */
  predicate MemoryLists(m: Memory, tenant: string, user: string, now: Time, doc: string) {
    tenant != "" && user != "" && doc != "" && MemoryHolds(m, Triple(tenant, doc, user), now)
  }

  datatype InMemoryStats = InMemoryStats(tenants: nat, visibilityDocs: nat, permanentEdges: nat, expiringEdges: nat)

  // ----- the visibility map -----

  type VisibilityMap = map<string, map<string, string>>

  function VisibilityAt(v: VisibilityMap, tenant: string, doc: string): Option<string> {
    if tenant in v && doc in v[tenant] then Some(v[tenant][doc]) else None
  }

  ghost function Pairs(v: VisibilityMap): map<(string, string), string> {
    var keys := set t, d | t in v && d in v[t] :: (t, d);
    map p | p in keys :: v[p.0][p.1]
  }

  lemma PairsLook(v: VisibilityMap, tenant: string, doc: string)
    ensures VisibilityAt(v, tenant, doc) == if (tenant, doc) in Pairs(v) then Some(Pairs(v)[(tenant, doc)]) else None
  {
  }

  lemma PairsUpdate(v: VisibilityMap, tenant: string, docs: map<string, string>, doc: string, value: string)
    requires docs == if tenant in v then v[tenant] else map[]
    ensures Pairs(v[tenant := docs[doc := value]]) == Pairs(v)[(tenant, doc) := value]
  {
    var after := v[tenant := docs[doc := value]];
    forall t, d
      ensures (t, d) in Pairs(after) <==> (t, d) in Pairs(v)[(tenant, doc) := value]
      ensures (t, d) in Pairs(after) ==> Pairs(after)[(t, d)] == Pairs(v)[(tenant, doc) := value][(t, d)]
    {
      PairsLook(after, t, d);
      PairsLook(v, t, d);
    }
  }

  ghost function PairsOfTenants(v: VisibilityMap, tenants: set<string>): set<(string, string)> {
    set p | p in Pairs(v) && p.0 in tenants
  }

  lemma {:induction false} DocsCount(tenant: string, docs: set<string>)
    ensures |set d | d in docs :: (tenant, d)| == |docs|
    decreases docs
  {
    if docs != {} {
      var d :| d in docs;
      DocsCount(tenant, docs - {d});
      assert (set x | x in docs :: (tenant, x)) == (set x | x in docs - {d} :: (tenant, x)) + {(tenant, d)};
    }
  }

  lemma OneMoreTenantPairs(v: VisibilityMap, tenants: set<string>, tenant: string)
    requires tenant in v && tenant !in tenants
    ensures |PairsOfTenants(v, tenants + {tenant})| == |PairsOfTenants(v, tenants)| + |v[tenant]|
  {
    var added := set d | d in v[tenant].Keys :: (tenant, d);
    DocsCount(tenant, v[tenant].Keys);
    forall t, d
      ensures (t, d) in added <==> (t, d) in Pairs(v) && t == tenant
    {
      PairsLook(v, t, d);
    }
    UnionSize(PairsOfTenants(v, tenants), added, PairsOfTenants(v, tenants + {tenant}));
  }

  /** Adds up the sizes of the tenants' visibility maps. */
  method CountVisibility(v: VisibilityMap) returns (n: nat)
    ensures n == |Pairs(v)|
  {
    n := 0;
    var tenants := v.Keys;
    assert PairsOfTenants(v, {}) == {};
    while tenants != {}
      invariant tenants <= v.Keys && n == |PairsOfTenants(v, v.Keys - tenants)|
      decreases tenants
    {
      var t :| t in tenants;
      OneMoreTenantPairs(v, v.Keys - tenants, t);
      assert v.Keys - (tenants - {t}) == v.Keys - tenants + {t};
      n := n + |v[t]|;
      tenants := tenants - {t};
    }
    assert PairsOfTenants(v, v.Keys - {}) == Pairs(v).Keys by {
      forall t, d | (t, d) in Pairs(v)
        ensures t in v.Keys
      {
        PairsLook(v, t, d);
      }
    }
  }

  /** The empty struct: only the presence of the key matters. */
  datatype Present = Present

  class InMemoryStore {
    var visibility: VisibilityMap
    var permanent: Tree<Present>
    var expiring: Tree<Time>

    /** No empty inner maps, and no grant is both permanent and expiring. */
    ghost predicate Valid()
      reads this
    {
      Pruned(permanent) && Pruned(expiring) && Separate(permanent, expiring)
    }

    ghost function State(): Memory
      reads this
    {
      Memory(Pairs(visibility), Edges(permanent).Keys, Edges(expiring))
    }

    constructor ()
      ensures Valid() && State() == NO_MEMORY
    {
      visibility, permanent, expiring := map[], map[], map[];
      new;
      EdgesEqual(permanent, map[]);
      EdgesEqual(expiring, map[]);
      assert Pairs(visibility) == map[] by {
        forall t, d
          ensures (t, d) !in Pairs(visibility)
        {
          PairsLook(visibility, t, d);
        }
      }
    }

    method SetVisibility(tenant: string, doc: string, v: string) returns (error: Option<StoreError>)
      requires Valid()
      modifies this
      ensures Valid() && error == Rejection(SetVisibilityCall(tenant, doc, v))
      ensures State() == MemoryApply(old(State()), SetVisibilityCall(tenant, doc, v))
      ensures error.Some? ==> State() == old(State())
    {
      if v != PUBLIC && v != RESTRICTED {
        return Some(InvalidVisibility);
      }
      if tenant == "" || doc == "" {
        return Some(MissingId);
      }
      var m: map<string, string> := if tenant in visibility then visibility[tenant] else map[];
      PairsUpdate(visibility, tenant, m, doc, v);
      visibility := visibility[tenant := m[doc := v]];
      return None;
    }

    method Grant(tenant: string, doc: string, user: string, validFrom: Time, validTo: Option<Time>, clock: Time)
        returns (error: Option<StoreError>)
      requires Valid()
      modifies this
      ensures Valid() && error == Rejection(GrantCall(tenant, doc, user, validFrom, validTo, clock))
      ensures State() == MemoryApply(old(State()), GrantCall(tenant, doc, user, validFrom, validTo, clock))
      ensures error ==
              if tenant == "" || doc == "" || user == "" then Some(MissingId)
              else if validFrom != ZERO_TIME && validTo.Some? && validTo.value != ZERO_TIME && validTo.value < validFrom
              then Some(InvalidInterval) else None
      ensures error.Some? ==> State() == old(State())
    {
      error := ValidateGrantArgs(tenant, doc, user, validFrom, validTo, clock);
      if error.Some? {
        return;
      }
      PurgeExpired(tenant, doc, clock);
      var k := Triple(tenant, doc, user);
      if validTo.None? {
        GrantPermanent(k);
      } else {
        GrantExpiring(k, validTo.value);
      }
      return None;
    }

    method GrantPermanent(k: Triple)
      requires Valid()
      modifies this`permanent, this`expiring
      ensures Valid()
      ensures State() == Memory(old(State().visibility), old(State().permanent) + {k}, old(State().expiring) - {k})
    {
      permanent, expiring := MoveEdge(permanent, expiring, k, Present);
    }

    method GrantExpiring(k: Triple, validTo: Time)
      requires Valid()
      modifies this`permanent, this`expiring
      ensures Valid()
      ensures State() ==
              Memory(old(State().visibility), old(State().permanent) - {k}, old(State().expiring)[k := validTo])
    {
      expiring, permanent := MoveEdge(expiring, permanent, k, validTo);
    }

    static method ValidateGrantArgs(
        tenant: string, doc: string, user: string, validFrom: Time, validTo: Option<Time>, ghost clock: Time)
        returns (error: Option<StoreError>)
      ensures error == Rejection(GrantCall(tenant, doc, user, validFrom, validTo, clock))
      ensures error ==
              if tenant == "" || doc == "" || user == "" then Some(MissingId)
              else if validFrom != ZERO_TIME && validTo.Some? && validTo.value != ZERO_TIME && validTo.value < validFrom
              then Some(InvalidInterval) else None
    {
      if tenant == "" || doc == "" || user == "" {
        return Some(MissingId);
      }
      if validFrom != ZERO_TIME && validTo.Some? && validTo.value != ZERO_TIME {
        if validTo.value < validFrom {
          return Some(InvalidInterval);
        }
      }
      return None;
    }

    /** Deletes the grants of one document that ended before `clock`. */
    method PurgeExpired(tenant: string, doc: string, clock: Time)
      requires Valid()
      modifies this`expiring
      ensures Valid()
      ensures State() == old(State()).(expiring := Cleaned(old(State().expiring), tenant, doc, clock))
    {
      var before := expiring;
      if tenant in expiring && doc in expiring[tenant] {
        var users := NotEnded(expiring[tenant][doc], clock);
        expiring := Store(before, tenant, doc, users);
      }
      AllEdges(before);
      EdgesEqual(expiring, Cleaned(Edges(before), tenant, doc, clock));
    }

    static method NotEnded(all: Users<Time>, clock: Time) returns (users: Users<Time>)
      ensures users == map u | u in all && !(all[u] < clock) :: all[u]
    {
      users := all;
      var todo := all.Keys;
      while todo != {}
        invariant todo <= users.Keys
        invariant forall u :: u in users <==> u in all && (u in todo || !(all[u] < clock))
        invariant forall u :: u in users ==> users[u] == all[u]
        decreases todo
      {
        var u :| u in todo;
        if users[u] < clock {
          users := users - {u};
        }
        todo := todo - {u};
      }
    }

    method Revoke(tenant: string, doc: string, user: string) returns (error: Option<StoreError>)
      requires Valid()
      modifies this
      ensures Valid() && error == Rejection(RevokeCall(tenant, doc, user))
      ensures State() == MemoryApply(old(State()), RevokeCall(tenant, doc, user))
      ensures error.Some? ==> State() == old(State())
    {
      if tenant == "" || doc == "" || user == "" {
        return Some(MissingId);
      }
      RevokeEdge(Triple(tenant, doc, user));
      return None;
    }

    method RevokeEdge(k: Triple)
      requires Valid()
      modifies this`permanent, this`expiring
      ensures Valid()
      ensures State() == Memory(old(State().visibility), old(State().permanent) - {k}, old(State().expiring) - {k})
    {
      permanent, expiring := DropEdge(permanent, expiring, k);
    }

    method RevokeAllUser(tenant: string, user: string) returns (error: Option<StoreError>)
      requires Valid()
      modifies this
      ensures Valid() && error == Rejection(RevokeAllCall(tenant, user))
      ensures State() == MemoryApply(old(State()), RevokeAllCall(tenant, user))
      ensures error.Some? ==> State() == old(State())
    {
      if tenant == "" || user == "" {
        return Some(MissingId);
      }
      permanent := DeleteUser(permanent, tenant, user);
      expiring := DeleteUser(expiring, tenant, user);
      return None;
    }

    method CheckBatch(tenant: string, user: string, docs: seq<string>, now: Time, clock: Time)
        returns (allowed: seq<string>)
      requires Valid()
      ensures now != ZERO_TIME ==> allowed == MemoryCheck(State(), tenant, user, docs, now)
      ensures now == ZERO_TIME ==> allowed == MemoryCheck(State(), tenant, user, docs, clock)
    {
      allowed := [];
      if tenant == "" || user == "" {
        return;
      }
      var at := QueryTime(now, clock);
      ghost var keep := MemoryAllowed(State(), tenant, user, at);
      var i := 0;
      while i < |docs|
        invariant i <= |docs| && allowed == Filter(docs[..i], keep)
      {
        var doc := docs[i];
        if doc != "" {
          var ok := Permits(tenant, doc, user, at);
          if ok {
            allowed := allowed + [doc];
          }
        }
        FilterAppend(docs[..i], doc, keep);
        assert docs[..i + 1] == docs[..i] + [doc];
        i := i + 1;
      }
      assert docs[..i] == docs;
    }

    function VisibilityOf(tenant: string, doc: string): (v: string)
      reads this
      ensures v == if (tenant, doc) in State().visibility then State().visibility[(tenant, doc)] else PUBLIC
    {
      PairsLook(visibility, tenant, doc);
      var v := VisibilityAt(visibility, tenant, doc);
      if v.Some? then v.value else PUBLIC
    }

    predicate HasPermanentGrant(tenant: string, doc: string, user: string)
      reads this
      ensures HasPermanentGrant(tenant, doc, user) <==> Triple(tenant, doc, user) in State().permanent
    {
      EdgesLook(permanent, Triple(tenant, doc, user));
      Look(permanent, Triple(tenant, doc, user)).Some?
    }

    predicate HasExpiringGrant(tenant: string, doc: string, user: string, now: Time)
      reads this
      ensures var k := Triple(tenant, doc, user);
              HasExpiringGrant(tenant, doc, user, now) <==> k in State().expiring && now < State().expiring[k]
    {
      EdgesLook(expiring, Triple(tenant, doc, user));
      var validTo := Look(expiring, Triple(tenant, doc, user));
      validTo.Some? && now < validTo.value
    }

    /** The decision for one document: public, permanently granted, or granted and not yet expired. */
    method Permits(tenant: string, doc: string, user: string, now: Time) returns (ok: bool)
      requires Valid()
      ensures ok == MemoryAllows(State(), Triple(tenant, doc, user), now)
    {
      if VisibilityOf(tenant, doc) == PUBLIC {
        return true;
      }
      if HasPermanentGrant(tenant, doc, user) {
        return true;
      }
      return HasExpiringGrant(tenant, doc, user, now);
    }

    /** The documents with a grant of the user, each once, in no particular order. */
    method ListGrants(tenant: string, user: string, now: Time, clock: Time) returns (out: seq<string>)
      requires Valid()
      ensures NoRepeats(out)
      ensures now != ZERO_TIME ==> forall d :: d in out <==> MemoryLists(State(), tenant, user, now, d)
      ensures now == ZERO_TIME ==> forall d :: d in out <==> MemoryLists(State(), tenant, user, clock, d)
    {
      out := [];
      if tenant == "" || user == "" {
        return;
      }
      var at := QueryTime(now, clock);
      var seen: set<string> := {};
      if tenant in permanent {
        seen := AddGrants(permanent[tenant], user, seen, _ => true);
      }
      if tenant in expiring {
        seen := AddGrants(expiring[tenant], user, seen, validTo => at < validTo);
      }
      forall d
        ensures d in seen <==> d != "" && MemoryHolds(State(), Triple(tenant, d, user), at)
      {
        EdgesLook(permanent, Triple(tenant, d, user));
        EdgesLook(expiring, Triple(tenant, d, user));
      }
      out := InAnyOrder(seen);
    }

    /** Adds to `seen` the documents that hold a live edge of the user; an empty document ID is skipped. */
    static method AddGrants<V>(docs: Docs<V>, user: string, seen: set<string>, live: V -> bool) returns (r: set<string>)
      ensures forall d :: d in r <==> d in seen || (d != "" && LookDocs(docs, d, user).Some? && live(docs[d][user]))
    {
      r := seen;
      var todo := docs.Keys;
      while todo != {}
        invariant todo <= docs.Keys
        invariant forall d :: d in r <==>
          d in seen || (d != "" && d !in todo && LookDocs(docs, d, user).Some? && live(docs[d][user]))
        decreases todo
      {
        var d :| d in todo;
        todo := todo - {d};
        if d != "" && user in docs[d] && live(docs[d][user]) {
          r := r + {d};
        }
      }
    }

    method Stats() returns (st: InMemoryStats)
      requires Valid()
      ensures st.tenants == |visibility| && st.visibilityDocs == |State().visibility|
      ensures st.permanentEdges == |State().permanent| && st.expiringEdges == |State().expiring|
    {
      var docs := CountVisibility(visibility);
      var permanentEdges := CountEdges(permanent);
      var expiringEdges := CountEdges(expiring);
      return InMemoryStats(|visibility|, docs, permanentEdges, expiringEdges);
    }
  }
}
