/** The store calls as lists of Redis commands on rendered keys (services/acl/internal/acl/redis_store.go). */
module RedisStore {
  import opened Wrappers
  import opened Clock
  import opened Sequences
  import opened Ledger
  import opened RedisServer
  import opened RedisKeys

  /** A command on a key that has not been rendered yet. */
  datatype Write = Write(key: Key, op: Op)

  function Rendered(prefix: string, writes: seq<Write>): (commands: seq<Command>)
    ensures |commands| == |writes|
  {
    seq(|writes|, i requires 0 <= i < |writes| => Command(Render(prefix, writes[i].key), writes[i].op))
  }

  /** The commands of one grant: the pipeline, then the second pipeline that drops empty keys. */
  function GrantWrites(k: Triple, validTo: Option<Time>, clock: Time): seq<Write> {
    var docPerm, docExp := DocPermanent(k.tenant, k.doc), DocExpiring(k.tenant, k.doc);
    var userPerm, userExp := UserPermanent(k.tenant, k.user), UserExpiring(k.tenant, k.user);
    if validTo.None? then
      [ Write(docPerm, SAdd(k.user)), Write(userPerm, SAdd(k.doc)),
        Write(docExp, ZRem(k.user)), Write(userExp, ZRem(k.doc)),
        Write(docExp, ZRemDelIfEmpty(k.user)), Write(userExp, ZRemDelIfEmpty(k.doc))]
    else
      var score := Seconds(validTo.value);
      [ Write(docExp, ZRemUpTo(Seconds(clock))), Write(userExp, ZRemUpTo(Seconds(clock))),
        Write(docExp, ZAdd(k.user, score)), Write(userExp, ZAdd(k.doc, score)),
        Write(docPerm, SRem(k.user)), Write(userPerm, SRem(k.doc)),
        Write(docPerm, SRemDelIfEmpty(k.user)), Write(userPerm, SRemDelIfEmpty(k.doc))]
  }

  function RevokeWrites(k: Triple): seq<Write> {
    [ Write(DocPermanent(k.tenant, k.doc), SRemDelIfEmpty(k.user)),
      Write(DocExpiring(k.tenant, k.doc), ZRemDelIfEmpty(k.user)),
      Write(UserPermanent(k.tenant, k.user), SRemDelIfEmpty(k.doc)),
      Write(UserExpiring(k.tenant, k.user), ZRemDelIfEmpty(k.doc))]
  }

  function DocRemoval(tenant: string, user: string, doc: string): seq<Write> {
    [Write(DocPermanent(tenant, doc), SRemDelIfEmpty(user)), Write(DocExpiring(tenant, doc), ZRemDelIfEmpty(user))]
  }

  /** The removals of `RevokeAllUser` on the document side, for the documents in the order visited. */
  function DocRemovals(tenant: string, user: string, docs: seq<string>): seq<Write>
    decreases |docs|
  {
    if docs == [] then []
    else
      var n := |docs| - 1;
      DocRemovals(tenant, user, docs[..n]) +
      DocRemoval(tenant, user, docs[n])
  }

  function UserRemovals(tenant: string, user: string): seq<Write> {
    [Write(UserPermanent(tenant, user), Del), Write(UserExpiring(tenant, user), Del)]
  }

  function VisibilityWrite(tenant: string, doc: string, v: string): Write {
    Write(Visibility(tenant, doc), if v == PUBLIC then Del else Set(v))
  }

  /** The documents the user-side keys mention. */
  function UserDocs(prefix: string, ks: Keyspace, tenant: string, user: string): set<string> {
    SMembers(ks, KeyUserPermanent(prefix, tenant, user))
    + ZScores(ks, KeyUserExpiring(prefix, tenant, user)).Keys - {""}
  }

  /** Exactly these commands were sent, in this order, and the keyspace is what they made of it. */
  ghost predicate Sent(
      prefix: string, writes: seq<Write>, ks: Keyspace, sent: seq<Command>, ks': Keyspace, sent': seq<Command>)
  {
    sent' == sent + Rendered(prefix, writes) && ks' == ExecAll(ks, Rendered(prefix, writes))
  }

  /** One call that runs to completion; the order in which RevokeAllUser visits documents is left open. */
  ghost predicate Step(prefix: string, ks: Keyspace, c: Call, ks': Keyspace) {
    if Rejection(c).Some? then ks' == ks
    else match c
      case SetVisibilityCall(t, d, v) => ks' == ExecAll(ks, Rendered(prefix, [VisibilityWrite(t, d, v)]))
      case GrantCall(t, d, u, _, validTo, clock) =>
        ks' == ExecAll(ks, Rendered(prefix, GrantWrites(Triple(t, d, u), validTo, clock)))
      case RevokeCall(t, d, u) => ks' == ExecAll(ks, Rendered(prefix, RevokeWrites(Triple(t, d, u))))
      case RevokeAllCall(t, u) =>
        exists docs :: Enumerates(docs, UserDocs(prefix, ks, t, u)) &&
          ks' == ExecAll(ks, Rendered(prefix, DocRemovals(t, u, docs) + UserRemovals(t, u)))
  }

  // ----- queries -----

  /** Anything but the stored text "restricted" counts as public. */
  function VisibilityFrom(reply: Option<string>): string {
    if reply == Some(RESTRICTED) then RESTRICTED else PUBLIC
  }

  predicate IsAllowedRestricted(permanent: bool, score: Option<int>, nowUnix: int) {
    permanent || (score.Some? && nowUnix < score.value)
  }

  predicate UserHolds(prefix: string, ks: Keyspace, k: Triple, now: Time) {
    IsAllowedRestricted(SIsMember(ks, KeyUserPermanent(prefix, k.tenant, k.user), k.doc),
                        ZScore(ks, KeyUserExpiring(prefix, k.tenant, k.user), k.doc), Seconds(now))
  }

  predicate RedisAllows(prefix: string, ks: Keyspace, k: Triple, now: Time) {
    VisibilityFrom(GetText(ks, KeyVisibility(prefix, k.tenant, k.doc))) == PUBLIC || UserHolds(prefix, ks, k, now)
  }

  function RedisAllowed(prefix: string, ks: Keyspace, tenant: string, user: string, now: Time): string -> bool {
    d => d != "" && RedisAllows(prefix, ks, Triple(tenant, d, user), now)
  }

  function RedisCheck(
      prefix: string, ks: Keyspace, tenant: string, user: string, docs: seq<string>, now: Time): seq<string>
  {
    if tenant == "" || user == "" then [] else Filter(docs, RedisAllowed(prefix, ks, tenant, user, now))
  }

  /** Does the list of the user's grants at `now` name the document? */
  predicate RedisLists(prefix: string, ks: Keyspace, tenant: string, user: string, now: Time, doc: string) {
    tenant != "" && user != "" && doc != "" && UserHolds(prefix, ks, Triple(tenant, doc, user), now)
  }

  predicate Named(doc: string) {
    doc != ""
  }

  /** The nonempty document IDs of the two replies, each once. */
  method Seen(permDocs: set<string>, expDocs: set<string>) returns (seen: set<string>)
    ensures seen == permDocs + expDocs - {""}
  {
    seen := {};
    var todo := permDocs;
    while todo != {}
      invariant todo <= permDocs && seen == permDocs - todo - {""}
    {
      var d :| d in todo;
      if d != "" {
        seen := seen + {d};
      }
      todo := todo - {d};
    }
    todo := expDocs;
    while todo != {}
      invariant todo <= expDocs && seen == permDocs + (expDocs - todo) - {""}
    {
      var d :| d in todo;
      if d != "" {
        seen := seen + {d};
      }
      todo := todo - {d};
    }
  }

  /** The replies collected for one document. */
  datatype DocOps = DocOps(visibility: Option<string>, permanent: bool, score: Option<int>)

  class RedisStore {
    const db: Redis
    const prefix: string

    constructor (db: Redis, keyPrefix: string)
      ensures this.db == db && prefix == if keyPrefix == "" then "acl:" else keyPrefix
    {
      this.db := db;
      prefix := if keyPrefix == "" then "acl:" else keyPrefix;
    }

    method SetVisibility(tenant: string, doc: string, v: string) returns (error: Option<StoreError>)
      modifies db
      ensures error == Rejection(SetVisibilityCall(tenant, doc, v))
      ensures Step(prefix, old(db.ks), SetVisibilityCall(tenant, doc, v), db.ks)
      ensures error.Some? ==> db.sent == old(db.sent) && db.ks == old(db.ks)
      ensures error.None? ==> Sent(prefix, [VisibilityWrite(tenant, doc, v)], old(db.ks), old(db.sent), db.ks, db.sent)
    {
      if v != PUBLIC && v != RESTRICTED {
        return Some(InvalidVisibility);
      }
      if tenant == "" || doc == "" {
        return Some(MissingId);
      }
      var key := KeyVisibility(prefix, tenant, doc);
      if v == PUBLIC {
        db.Do(Command(key, Del));
      } else {
        db.Do(Command(key, Set(v)));
      }
      assert ExecUpTo(old(db.ks), Rendered(prefix, [VisibilityWrite(tenant, doc, v)]), 0) == old(db.ks);
      return None;
    }

    method Grant(tenant: string, doc: string, user: string, validFrom: Time, validTo: Option<Time>, clock: Time)
        returns (error: Option<StoreError>)
      modifies db
      ensures error == Rejection(GrantCall(tenant, doc, user, validFrom, validTo, clock))
      ensures Step(prefix, old(db.ks), GrantCall(tenant, doc, user, validFrom, validTo, clock), db.ks)
      ensures error ==
              if tenant == "" || doc == "" || user == "" then Some(MissingId)
              else if validFrom != ZERO_TIME && validTo.Some? && validTo.value != ZERO_TIME && validTo.value < validFrom
              then Some(InvalidInterval) else None
      ensures error.Some? ==> db.sent == old(db.sent) && db.ks == old(db.ks)
      ensures error.None? ==>
                Sent(prefix, GrantWrites(Triple(tenant, doc, user), validTo, clock),
                     old(db.ks), old(db.sent), db.ks, db.sent)
    {
      if tenant == "" || doc == "" || user == "" {
        return Some(MissingId);
      }
      if validFrom != ZERO_TIME && validTo.Some? && validTo.value != ZERO_TIME {
        if validTo.value < validFrom {
          return Some(InvalidInterval);
        }
      }
      SendGrant(tenant, doc, user, validTo, clock);
      return None;
    }

    method SendGrant(tenant: string, doc: string, user: string, validTo: Option<Time>, clock: Time)
      modifies db
      ensures Sent(prefix, GrantWrites(Triple(tenant, doc, user), validTo, clock),
                   old(db.ks), old(db.sent), db.ks, db.sent)
    {
      var pipe, cleanup := GrantPipelines(tenant, doc, user, validTo, clock);
      db.Pipeline(pipe);
      db.Pipeline(cleanup);
      ExecAppend(old(db.ks), pipe, cleanup, |cleanup|);
      AppendAssoc(old(db.sent), pipe, cleanup);
    }

    /** The main pipeline and the one that drops empty keys. */
    method GrantPipelines(tenant: string, doc: string, user: string, validTo: Option<Time>, clock: Time)
        returns (pipe: seq<Command>, cleanup: seq<Command>)
      ensures pipe + cleanup == Rendered(prefix, GrantWrites(Triple(tenant, doc, user), validTo, clock))
    {
      var docPermKey := KeyPermanent(prefix, tenant, doc);
      var docExpKey := KeyExpiring(prefix, tenant, doc);
      var userPermKey := KeyUserPermanent(prefix, tenant, user);
      var userExpKey := KeyUserExpiring(prefix, tenant, user);
      if validTo.None? {
        pipe := [Command(docPermKey, SAdd(user)), Command(userPermKey, SAdd(doc)),
                 Command(docExpKey, ZRem(user)), Command(userExpKey, ZRem(doc))];
        cleanup := [Command(docExpKey, ZRemDelIfEmpty(user)), Command(userExpKey, ZRemDelIfEmpty(doc))];
      } else {
        var max := Seconds(clock);
        var score := Seconds(validTo.value);
        pipe := [Command(docExpKey, ZRemUpTo(max)), Command(userExpKey, ZRemUpTo(max)),
                 Command(docExpKey, ZAdd(user, score)), Command(userExpKey, ZAdd(doc, score)),
                 Command(docPermKey, SRem(user)), Command(userPermKey, SRem(doc))];
        cleanup := [Command(docPermKey, SRemDelIfEmpty(user)), Command(userPermKey, SRemDelIfEmpty(doc))];
      }
    }

    method Revoke(tenant: string, doc: string, user: string) returns (error: Option<StoreError>)
      modifies db
      ensures error == Rejection(RevokeCall(tenant, doc, user))
      ensures Step(prefix, old(db.ks), RevokeCall(tenant, doc, user), db.ks)
      ensures error.Some? ==> db.sent == old(db.sent) && db.ks == old(db.ks)
      ensures error.None? ==>
                Sent(prefix, RevokeWrites(Triple(tenant, doc, user)), old(db.ks), old(db.sent), db.ks, db.sent)
    {
      if tenant == "" || doc == "" || user == "" {
        return Some(MissingId);
      }
      var pipe := [Command(KeyPermanent(prefix, tenant, doc), SRemDelIfEmpty(user)),
                   Command(KeyExpiring(prefix, tenant, doc), ZRemDelIfEmpty(user)),
                   Command(KeyUserPermanent(prefix, tenant, user), SRemDelIfEmpty(doc)),
                   Command(KeyUserExpiring(prefix, tenant, user), ZRemDelIfEmpty(doc))];
      db.Pipeline(pipe);
      assert pipe == Rendered(prefix, RevokeWrites(Triple(tenant, doc, user)));
      return None;
    }

    method RevokeAllUser(tenant: string, user: string) returns (error: Option<StoreError>)
      modifies db
      ensures error == Rejection(RevokeAllCall(tenant, user))
      ensures Step(prefix, old(db.ks), RevokeAllCall(tenant, user), db.ks)
      ensures error.Some? ==> db.sent == old(db.sent) && db.ks == old(db.ks)
      ensures error.None? ==>
                exists docs | Enumerates(docs, UserDocs(prefix, old(db.ks), tenant, user)) ::
                  Sent(prefix, DocRemovals(tenant, user, docs) + UserRemovals(tenant, user),
                       old(db.ks), old(db.sent), db.ks, db.sent)
    {
      if tenant == "" || user == "" {
        return Some(MissingId);
      }
      var userPermKey := KeyUserPermanent(prefix, tenant, user);
      var userExpKey := KeyUserExpiring(prefix, tenant, user);
      var permDocs := SMembers(db.ks, userPermKey);
      var expDocs := ZScores(db.ks, userExpKey).Keys;
      var seen := Seen(permDocs, expDocs);
      var docs := InAnyOrder(seen);
      var pipe: seq<Command> := [];
      var i := 0;
      while i < |docs|
        invariant i <= |docs|
        invariant pipe == Rendered(prefix, DocRemovals(tenant, user, docs[..i]))
      {
        pipe := pipe + [Command(KeyPermanent(prefix, tenant, docs[i]), SRemDelIfEmpty(user)),
                        Command(KeyExpiring(prefix, tenant, docs[i]), ZRemDelIfEmpty(user))];
        assert docs[..i + 1][..i] == docs[..i];
        i := i + 1;
      }
      assert docs[..i] == docs;
      pipe := pipe + [Command(userPermKey, Del), Command(userExpKey, Del)];
      assert pipe == Rendered(prefix, DocRemovals(tenant, user, docs) + UserRemovals(tenant, user));
      db.Pipeline(pipe);
      assert Enumerates(docs, UserDocs(prefix, old(db.ks), tenant, user));
      return None;
    }

    function EnqueueDocOps(tenant: string, doc: string, userPermKey: string, userExpKey: string): DocOps
      reads db
    {
      DocOps(GetText(db.ks, KeyVisibility(prefix, tenant, doc)),
             SIsMember(db.ks, userPermKey, doc), ZScore(db.ks, userExpKey, doc))
    }

    method CheckBatch(tenant: string, user: string, docs: seq<string>, now: Time, clock: Time)
        returns (allowed: seq<string>)
      ensures now != ZERO_TIME ==> allowed == RedisCheck(prefix, db.ks, tenant, user, docs, now)
      ensures now == ZERO_TIME ==> allowed == RedisCheck(prefix, db.ks, tenant, user, docs, clock)
    {
      allowed := [];
      if tenant == "" || user == "" {
        return;
      }
      var at := QueryTime(now, clock);
      var userPermKey := KeyUserPermanent(prefix, tenant, user);
      var userExpKey := KeyUserExpiring(prefix, tenant, user);
      var filtered, ops := Enqueue(tenant, docs, userPermKey, userExpKey);
      allowed := Decide(tenant, user, filtered, ops, at);
      FilterTwice(docs, Named, Permitted(tenant, user, at), RedisAllowed(prefix, db.ks, tenant, user, at));
    }

    /** Collects the replies for every nonempty document ID. */
    method Enqueue(tenant: string, docs: seq<string>, userPermKey: string, userExpKey: string)
        returns (filtered: seq<string>, ops: seq<DocOps>)
      ensures filtered == Filter(docs, Named) && |ops| == |filtered|
      ensures forall j :: 0 <= j < |ops| ==> ops[j] == EnqueueDocOps(tenant, filtered[j], userPermKey, userExpKey)
    {
      filtered, ops := [], [];
      var i := 0;
      while i < |docs|
        invariant i <= |docs| && |ops| == |filtered| && filtered == Filter(docs[..i], Named)
        invariant forall j :: 0 <= j < |ops| ==> ops[j] == EnqueueDocOps(tenant, filtered[j], userPermKey, userExpKey)
      {
        if docs[i] != "" {
          filtered := filtered + [docs[i]];
          ops := ops + [EnqueueDocOps(tenant, docs[i], userPermKey, userExpKey)];
        }
        FilterAppend(docs[..i], docs[i], Named);
        assert docs[..i + 1] == docs[..i] + [docs[i]];
        i := i + 1;
      }
      assert docs[..i] == docs;
    }

    ghost function Permitted(tenant: string, user: string, at: Time): string -> bool
      reads db
    {
      var ks := db.ks;
      d => RedisAllows(prefix, ks, Triple(tenant, d, user), at)
    }

    /** Decides document by document from the replies. */
    method Decide(tenant: string, user: string, filtered: seq<string>, ops: seq<DocOps>, at: Time)
        returns (allowed: seq<string>)
      requires |ops| == |filtered|
      requires forall j :: 0 <= j < |ops| ==>
                 ops[j] == EnqueueDocOps(tenant, filtered[j], KeyUserPermanent(prefix, tenant, user),
                                         KeyUserExpiring(prefix, tenant, user))
      ensures allowed == Filter(filtered, Permitted(tenant, user, at))
    {
      allowed := [];
      var nowUnix := Seconds(at);
      ghost var keep := Permitted(tenant, user, at);
      var i := 0;
      while i < |filtered|
        invariant i <= |filtered| && allowed == Filter(filtered[..i], keep)
      {
        var op := ops[i];
        if VisibilityFrom(op.visibility) == PUBLIC {
          allowed := allowed + [filtered[i]];
        } else if IsAllowedRestricted(op.permanent, op.score, nowUnix) {
          allowed := allowed + [filtered[i]];
        }
        FilterAppend(filtered[..i], filtered[i], keep);
        assert filtered[..i + 1] == filtered[..i] + [filtered[i]];
        i := i + 1;
      }
      assert filtered[..i] == filtered;
    }

    /** The documents with a grant of the user, each once, in no particular order. */
    method ListGrants(tenant: string, user: string, now: Time, clock: Time) returns (out: seq<string>)
      ensures NoRepeats(out)
      ensures now != ZERO_TIME ==> forall d :: d in out <==> RedisLists(prefix, db.ks, tenant, user, now, d)
      ensures now == ZERO_TIME ==> forall d :: d in out <==> RedisLists(prefix, db.ks, tenant, user, clock, d)
    {
      out := [];
      if tenant == "" || user == "" {
        return;
      }
      var at := QueryTime(now, clock);
      var permDocs := SMembers(db.ks, KeyUserPermanent(prefix, tenant, user));
      var expDocs := ZRangeAbove(db.ks, KeyUserExpiring(prefix, tenant, user), Seconds(at));
      var seen := Seen(permDocs, expDocs);
      out := InAnyOrder(seen);
    }
  }
}
