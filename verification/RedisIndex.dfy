/** What each Redis command does to the four places that record one (tenant, document, user). */
module RedisIndex {
  import opened Wrappers
  import opened Clock
  import opened Ledger
  import opened RedisServer
  import opened RedisKeys
  import opened RedisStore

  /** The document-side and the user-side index at one triple. */
  datatype Entry = Entry(docPerm: bool, userPerm: bool, docScore: Option<int>, userScore: Option<int>)

  const NO_ENTRY := Entry(false, false, None, None)

  function EntryAt(prefix: string, ks: Keyspace, k: Triple): Entry {
    Entry(SIsMember(ks, KeyPermanent(prefix, k.tenant, k.doc), k.user),
          SIsMember(ks, KeyUserPermanent(prefix, k.tenant, k.user), k.doc),
          ZScore(ks, KeyExpiring(prefix, k.tenant, k.doc), k.user),
          ZScore(ks, KeyUserExpiring(prefix, k.tenant, k.user), k.doc))
  }

  /** The tenants in use; their keys must not coincide. */
  ghost predicate Apart(tenants: iset<string>) {
    forall a, b {:trigger Confusable(a, b)} :: a in tenants && b in tenants ==> !Confusable(a, b)
  }

  ghost predicate Fits(k: Key, v: Option<Value>) {
    v.Some? ==>
      if k.Visibility? then v.value.Text?
      else if k.DocPermanent? || k.UserPermanent? then v.value.Members?
      else v.value.Scores?
  }

  /** Every key of these tenants holds a value of the type its builder stands for. */
  ghost predicate Typed(prefix: string, tenants: iset<string>, ks: Keyspace) {
    forall k: Key {:trigger Render(prefix, k)} :: k.tenant in tenants ==> Fits(k, Look(ks, Render(prefix, k)))
  }

  /** The store only sends set commands to permanent keys, and so on. */
  predicate WellKinded(w: Write) {
    match w.op
    case Set(_) => w.key.Visibility?
    case Del => true
    case SAdd(_) => w.key.DocPermanent? || w.key.UserPermanent?
    case SRem(_) => w.key.DocPermanent? || w.key.UserPermanent?
    case SRemDelIfEmpty(_) => w.key.DocPermanent? || w.key.UserPermanent?
    case ZAdd(_, _) => w.key.DocExpiring? || w.key.UserExpiring?
    case ZRem(_) => w.key.DocExpiring? || w.key.UserExpiring?
    case ZRemUpTo(_) => w.key.DocExpiring? || w.key.UserExpiring?
    case ZRemDelIfEmpty(_) => w.key.DocExpiring? || w.key.UserExpiring?
  }

  // ----- one command -----

  function HasMember(v: Option<Value>, x: string): bool {
    v.Some? && v.value.Members? && x in v.value.members
  }

  function ScoreIn(v: Option<Value>, x: string): Option<int> {
    if v.Some? && v.value.Scores? && x in v.value.scores then Some(v.value.scores[x]) else None
  }

  function MemberAfter(op: Op, x: string, member: bool): bool {
    match op
    case SAdd(y) => member || x == y
    case SRem(y) => member && x != y
    case SRemDelIfEmpty(y) => member && x != y
    case Del => false
    case _ => member
  }

  function ScoreAfter(op: Op, x: string, score: Option<int>): Option<int> {
    match op
    case ZAdd(y, s) => if x == y then Some(s) else score
    case ZRem(y) => if x == y then None else score
    case ZRemDelIfEmpty(y) => if x == y then None else score
    case ZRemUpTo(max) => if score.Some? && score.value <= max then None else score
    case Del => None
    case _ => score
  }

  lemma OpOnSet(w: Write, v: Option<Value>, x: string)
    requires WellKinded(w) && Fits(w.key, v) && (w.key.DocPermanent? || w.key.UserPermanent?)
    ensures HasMember(ApplyOp(v, w.op), x) == MemberAfter(w.op, x, HasMember(v, x))
  {
  }

  lemma OpOnScores(w: Write, v: Option<Value>, x: string)
    requires WellKinded(w) && Fits(w.key, v) && (w.key.DocExpiring? || w.key.UserExpiring?)
    ensures ScoreIn(ApplyOp(v, w.op), x) == ScoreAfter(w.op, x, ScoreIn(v, x))
  {
    if v.Some? {
      var z := v.value.scores;
      match w.op
      case ZRem(y) => KeptScore(z - {y}, x);
      case ZRemDelIfEmpty(y) => KeptScore(z - {y}, x);
      case ZRemUpTo(max) => KeptScore(map y | y in z && z[y] > max :: z[y], x);
      case _ =>
    }
  }

  /** Removing an empty collection loses no member. */
  lemma KeptScore(z: map<string, int>, x: string)
    ensures ScoreIn(Kept(Scores(z)), x) == if x in z then Some(z[x]) else None
  {
    assert x in z <==> x in z.Keys;
  }

  lemma OpFits(w: Write, v: Option<Value>)
    requires WellKinded(w) && Fits(w.key, v)
    ensures Fits(w.key, ApplyOp(v, w.op))
  {
  }

  function EntryAfter(w: Write, k: Triple, e: Entry): Entry {
    match w.key
    case Visibility(_, _) => e
    case DocPermanent(t, d) =>
      if t == k.tenant && d == k.doc then e.(docPerm := MemberAfter(w.op, k.user, e.docPerm)) else e
    case DocExpiring(t, d) =>
      if t == k.tenant && d == k.doc then e.(docScore := ScoreAfter(w.op, k.user, e.docScore)) else e
    case UserPermanent(t, u) =>
      if t == k.tenant && u == k.user then e.(userPerm := MemberAfter(w.op, k.doc, e.userPerm)) else e
    case UserExpiring(t, u) =>
      if t == k.tenant && u == k.user then e.(userScore := ScoreAfter(w.op, k.doc, e.userScore)) else e
  }

  function ExecWrite(prefix: string, ks: Keyspace, w: Write): Keyspace {
    Exec(ks, Command(Render(prefix, w.key), w.op))
  }

  /** A command changes the value of its own key only. */
  lemma ExecAtKey(prefix: string, tenants: iset<string>, ks: Keyspace, w: Write, key: Key)
    requires Apart(tenants) && w.key.tenant in tenants && key.tenant in tenants
    ensures Look(ExecWrite(prefix, ks, w), Render(prefix, key))
         == if key == w.key then ApplyOp(Look(ks, Render(prefix, key)), w.op) else Look(ks, Render(prefix, key))
  {
    ExecLook(ks, Command(Render(prefix, w.key), w.op), Render(prefix, key));
    if Render(prefix, key) == Render(prefix, w.key) {
      RenderInjective(prefix, key, w.key);
    }
  }

  lemma ExecTyped(prefix: string, tenants: iset<string>, ks: Keyspace, w: Write)
    requires Apart(tenants) && Typed(prefix, tenants, ks) && w.key.tenant in tenants && WellKinded(w)
    ensures Typed(prefix, tenants, ExecWrite(prefix, ks, w))
  {
    forall key: Key | key.tenant in tenants
      ensures Fits(key, Look(ExecWrite(prefix, ks, w), Render(prefix, key)))
    {
      ExecAtKey(prefix, tenants, ks, w, key);
      OpFits(w, Look(ks, Render(prefix, w.key)));
    }
  }

  lemma EntryValues(prefix: string, ks: Keyspace, k: Triple)
    ensures EntryAt(prefix, ks, k) == Entry(
              HasMember(Look(ks, Render(prefix, DocPermanent(k.tenant, k.doc))), k.user),
              HasMember(Look(ks, Render(prefix, UserPermanent(k.tenant, k.user))), k.doc),
              ScoreIn(Look(ks, Render(prefix, DocExpiring(k.tenant, k.doc))), k.user),
              ScoreIn(Look(ks, Render(prefix, UserExpiring(k.tenant, k.user))), k.doc))
  {
  }

  /** The effect of one command on the entry of any triple. */
  lemma ExecEntry(prefix: string, tenants: iset<string>, ks: Keyspace, w: Write, k: Triple)
    requires Apart(tenants) && w.key.tenant in tenants && k.tenant in tenants
    requires WellKinded(w) && Fits(w.key, Look(ks, Render(prefix, w.key)))
    ensures EntryAt(prefix, ExecWrite(prefix, ks, w), k) == EntryAfter(w, k, EntryAt(prefix, ks, k))
  {
    var ks' := ExecWrite(prefix, ks, w);
    EntryValues(prefix, ks, k);
    EntryValues(prefix, ks', k);
    ExecAtKey(prefix, tenants, ks, w, DocPermanent(k.tenant, k.doc));
    ExecAtKey(prefix, tenants, ks, w, UserPermanent(k.tenant, k.user));
    ExecAtKey(prefix, tenants, ks, w, DocExpiring(k.tenant, k.doc));
    ExecAtKey(prefix, tenants, ks, w, UserExpiring(k.tenant, k.user));
    var v := Look(ks, Render(prefix, w.key));
    match w.key
    case Visibility(_, _) =>
    case DocPermanent(_, _) => OpOnSet(w, v, k.user);
    case UserPermanent(_, _) => OpOnSet(w, v, k.doc);
    case DocExpiring(_, _) => OpOnScores(w, v, k.user);
    case UserExpiring(_, _) => OpOnScores(w, v, k.doc);
  }

  // ----- lists of commands -----

  /** The entry after the first `n` commands. */
  function EntryUpTo(writes: seq<Write>, n: nat, k: Triple, e: Entry): Entry
    requires n <= |writes|
  {
    if n == 0 then e else EntryAfter(writes[n - 1], k, EntryUpTo(writes, n - 1, k, e))
  }

  ghost predicate Sound(tenants: iset<string>, writes: seq<Write>) {
    forall i :: 0 <= i < |writes| ==> WellKinded(writes[i]) && writes[i].key.tenant in tenants
  }

  lemma ExecUpToNext(prefix: string, ks: Keyspace, writes: seq<Write>, n: nat)
    requires 0 < n <= |writes|
    ensures ExecUpTo(ks, Rendered(prefix, writes), n)
         == ExecWrite(prefix, ExecUpTo(ks, Rendered(prefix, writes), n - 1), writes[n - 1])
  {
  }

  lemma {:induction false} ExecUpToTyped(
      prefix: string, tenants: iset<string>, ks: Keyspace, writes: seq<Write>, n: nat)
    requires Apart(tenants) && Typed(prefix, tenants, ks) && Sound(tenants, writes) && n <= |writes|
    ensures Typed(prefix, tenants, ExecUpTo(ks, Rendered(prefix, writes), n))
    decreases n
  {
    if n > 0 {
      ExecUpToTyped(prefix, tenants, ks, writes, n - 1);
      ExecUpToNext(prefix, ks, writes, n);
      ExecTyped(prefix, tenants, ExecUpTo(ks, Rendered(prefix, writes), n - 1), writes[n - 1]);
    }
  }

  lemma NextFits(prefix: string, tenants: iset<string>, ks: Keyspace, writes: seq<Write>, n: nat)
    requires Apart(tenants) && Typed(prefix, tenants, ks) && Sound(tenants, writes) && 0 < n <= |writes|
    ensures var key := writes[n - 1].key;
            Fits(key, Look(ExecUpTo(ks, Rendered(prefix, writes), n - 1), Render(prefix, key)))
  {
    ExecUpToTyped(prefix, tenants, ks, writes, n - 1);
  }

  lemma ExecNextEntry(prefix: string, tenants: iset<string>, ks: Keyspace, writes: seq<Write>, n: nat, k: Triple)
    requires Apart(tenants) && Sound(tenants, writes) && 0 < n <= |writes| && k.tenant in tenants
    requires var key := writes[n - 1].key;
             Fits(key, Look(ExecUpTo(ks, Rendered(prefix, writes), n - 1), Render(prefix, key)))
    ensures EntryAt(prefix, ExecUpTo(ks, Rendered(prefix, writes), n), k)
         == EntryAfter(writes[n - 1], k, EntryAt(prefix, ExecUpTo(ks, Rendered(prefix, writes), n - 1), k))
  {
    ExecUpToNext(prefix, ks, writes, n);
    ExecEntry(prefix, tenants, ExecUpTo(ks, Rendered(prefix, writes), n - 1), writes[n - 1], k);
  }

  /** The entry of any triple after the first `n` commands of a list. */
  lemma {:induction false} ExecUpToEntry(
      prefix: string, tenants: iset<string>, ks: Keyspace, writes: seq<Write>, n: nat, k: Triple)
    requires Apart(tenants) && Typed(prefix, tenants, ks) && Sound(tenants, writes)
    requires n <= |writes| && k.tenant in tenants
    ensures EntryAt(prefix, ExecUpTo(ks, Rendered(prefix, writes), n), k)
         == EntryUpTo(writes, n, k, EntryAt(prefix, ks, k))
    decreases n
  {
    if n > 0 {
      var e := EntryAt(prefix, ks, k);
      calc {
        EntryAt(prefix, ExecUpTo(ks, Rendered(prefix, writes), n), k);
        { NextFits(prefix, tenants, ks, writes, n); ExecNextEntry(prefix, tenants, ks, writes, n, k); }
        EntryAfter(writes[n - 1], k, EntryAt(prefix, ExecUpTo(ks, Rendered(prefix, writes), n - 1), k));
        { ExecUpToEntry(prefix, tenants, ks, writes, n - 1, k); }
        EntryAfter(writes[n - 1], k, EntryUpTo(writes, n - 1, k, e));
        { EntryUpToNext(writes, n - 1, k, e); }
        EntryUpTo(writes, n, k, e);
      }
    }
  }

  /** Does the stored visibility make the document restricted? */
  predicate RestrictedIn(prefix: string, ks: Keyspace, tenant: string, doc: string) {
    Look(ks, Render(prefix, Visibility(tenant, doc))) == Some(Text(RESTRICTED))
  }

  lemma {:induction false} ExecUpToVisibility(
      prefix: string, tenants: iset<string>, ks: Keyspace, writes: seq<Write>, n: nat, tenant: string, doc: string)
    requires Apart(tenants) && Sound(tenants, writes) && n <= |writes| && tenant in tenants
    requires forall i :: 0 <= i < |writes| ==> writes[i].key != Visibility(tenant, doc)
    ensures RestrictedIn(prefix, ExecUpTo(ks, Rendered(prefix, writes), n), tenant, doc)
         == RestrictedIn(prefix, ks, tenant, doc)
    decreases n
  {
    if n > 0 {
      ExecUpToVisibility(prefix, tenants, ks, writes, n - 1, tenant, doc);
      ExecUpToNext(prefix, ks, writes, n);
      ExecAtKey(prefix, tenants, ExecUpTo(ks, Rendered(prefix, writes), n - 1), writes[n - 1], Visibility(tenant, doc));
    }
  }

  // ----- whole calls -----

  /** The effect of a completed grant on any entry. */
  function GrantEffect(g: Triple, validTo: Option<Time>, clock: Time, k: Triple, e: Entry): Entry {
    if k == g then
      if validTo.None? then Entry(true, true, None, None)
      else Entry(false, false, Some(Seconds(validTo.value)), Some(Seconds(validTo.value)))
    else if validTo.None? || k.tenant != g.tenant then e
    else e.(docScore := if k.doc == g.doc then Unexpired(e.docScore, clock) else e.docScore,
            userScore := if k.user == g.user then Unexpired(e.userScore, clock) else e.userScore)
  }

  function Unexpired(score: Option<int>, clock: Time): Option<int> {
    if score.Some? && score.value <= Seconds(clock) then None else score
  }

  lemma TripleParts(k: Triple, g: Triple)
    ensures k == g <==> k.tenant == g.tenant && k.doc == g.doc && k.user == g.user
  {
  }

  lemma EntryUpToNext(writes: seq<Write>, n: nat, k: Triple, e: Entry)
    requires n < |writes|
    ensures EntryUpTo(writes, n + 1, k, e) == EntryAfter(writes[n], k, EntryUpTo(writes, n, k, e))
  {
  }

  lemma PermanentEntries(g: Triple, clock: Time, k: Triple, e: Entry)
    ensures EntryUpTo(GrantWrites(g, None, clock), 6, k, e) == GrantEffect(g, None, clock, k, e)
  {
    TripleParts(k, g);
    var ws := GrantWrites(g, None, clock);
    EntryUpToNext(ws, 0, k, e);
    EntryUpToNext(ws, 1, k, e);
    EntryUpToNext(ws, 2, k, e);
    EntryUpToNext(ws, 3, k, e);
    EntryUpToNext(ws, 4, k, e);
    EntryUpToNext(ws, 5, k, e);
  }

  lemma ExpiringEntries(g: Triple, validTo: Time, clock: Time, k: Triple, e: Entry)
    ensures EntryUpTo(GrantWrites(g, Some(validTo), clock), 8, k, e) == GrantEffect(g, Some(validTo), clock, k, e)
  {
    TripleParts(k, g);
    var ws := GrantWrites(g, Some(validTo), clock);
    EntryUpToNext(ws, 0, k, e);
    EntryUpToNext(ws, 1, k, e);
    EntryUpToNext(ws, 2, k, e);
    EntryUpToNext(ws, 3, k, e);
    EntryUpToNext(ws, 4, k, e);
    EntryUpToNext(ws, 5, k, e);
    EntryUpToNext(ws, 6, k, e);
    EntryUpToNext(ws, 7, k, e);
  }

  lemma GrantEntries(g: Triple, validTo: Option<Time>, clock: Time, k: Triple, e: Entry)
    ensures var ws := GrantWrites(g, validTo, clock); EntryUpTo(ws, |ws|, k, e) == GrantEffect(g, validTo, clock, k, e)
  {
    if validTo.None? {
      PermanentEntries(g, clock, k, e);
    } else {
      ExpiringEntries(g, validTo.value, clock, k, e);
    }
  }

  lemma RevokeEntries(g: Triple, k: Triple, e: Entry)
    ensures EntryUpTo(RevokeWrites(g), 4, k, e) == if k == g then NO_ENTRY else e
  {
    TripleParts(k, g);
    var ws := RevokeWrites(g);
    EntryUpToNext(ws, 0, k, e);
    EntryUpToNext(ws, 1, k, e);
    EntryUpToNext(ws, 2, k, e);
    EntryUpToNext(ws, 3, k, e);
  }

  lemma {:induction false} UpToPrefix(first: seq<Write>, second: seq<Write>, n: nat, k: Triple, e: Entry)
    requires n <= |first|
    ensures EntryUpTo(first + second, n, k, e) == EntryUpTo(first, n, k, e)
  {
    if n > 0 {
      UpToPrefix(first, second, n - 1, k, e);
    }
  }

  /** The effect of the document-side removals of RevokeAllUser. */
  lemma {:induction false} DocRemovalEntries(tenant: string, user: string, docs: seq<string>, k: Triple, e: Entry)
    ensures var ws := DocRemovals(tenant, user, docs);
            EntryUpTo(ws, |ws|, k, e) ==
              if k.tenant == tenant && k.user == user && k.doc in docs then e.(docPerm := false, docScore := None)
              else e
    decreases |docs|
  {
    if docs != [] {
      var n := |docs| - 1;
      var first := DocRemovals(tenant, user, docs[..n]);
      var second := DocRemoval(tenant, user, docs[n]);
      DocRemovalEntries(tenant, user, docs[..n], k, e);
      UpToPrefix(first, second, |first|, k, e);
      var ws := first + second;
      assert EntryUpTo(ws, |first| + 1, k, e) == EntryAfter(second[0], k, EntryUpTo(ws, |first|, k, e));
      assert k.doc in docs <==> k.doc in docs[..n] || k.doc == docs[n];
    }
  }

  lemma RevokeAllEntries(tenant: string, user: string, docs: seq<string>, k: Triple, e: Entry)
    ensures var ws := DocRemovals(tenant, user, docs) + UserRemovals(tenant, user);
            EntryUpTo(ws, |ws|, k, e) ==
              if k.tenant == tenant && k.user == user then
                Entry(e.docPerm && k.doc !in docs, false, if k.doc in docs then None else e.docScore, None)
              else e
  {
    var first, second := DocRemovals(tenant, user, docs), UserRemovals(tenant, user);
    DocRemovalEntries(tenant, user, docs, k, e);
    UpToPrefix(first, second, |first|, k, e);
    var ws := first + second;
    assert EntryUpTo(ws, |first| + 1, k, e) == EntryAfter(second[0], k, EntryUpTo(ws, |first|, k, e));
  }
}
