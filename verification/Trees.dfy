/** Nested tenant -> document -> user maps without empty inner maps, and the flat map they stand for. */
module Trees {
  import opened Wrappers
  import opened Ledger

  type Users<V> = map<string, V>
  type Docs<V> = map<string, Users<V>>
  type Tree<V> = map<string, Docs<V>>

  function LookDocs<V>(docs: Docs<V>, doc: string, user: string): Option<V> {
    if doc in docs && user in docs[doc] then Some(docs[doc][user]) else None
  }

  function Look<V>(tree: Tree<V>, k: Triple): Option<V> {
    if k.tenant in tree then LookDocs(tree[k.tenant], k.doc, k.user) else None
  }

  ghost predicate PrunedDocs<V>(docs: Docs<V>) {
    forall d :: d in docs ==> docs[d].Keys != {}
  }

  /** No inner map is empty. */
  ghost predicate Pruned<V>(tree: Tree<V>) {
    forall t :: t in tree ==> tree[t].Keys != {} && PrunedDocs(tree[t])
  }

  ghost function Keys<V>(tree: Tree<V>): set<Triple> {
    set t, d, u | t in tree && d in tree[t] && u in tree[t][d] :: Triple(t, d, u)
  }

  lemma KeysLook<V>(tree: Tree<V>, k: Triple)
    ensures k in Keys(tree) <==> Look(tree, k).Some?
  {
    assert k == Triple(k.tenant, k.doc, k.user);
  }

  /** The flat map of all edges. */
  ghost function Edges<V>(tree: Tree<V>): map<Triple, V> {
    map k | k in Keys(tree) && Look(tree, k).Some? :: Look(tree, k).value
  }

  lemma EdgesLook<V>(tree: Tree<V>, k: Triple)
    ensures Look(tree, k) == if k in Edges(tree) then Some(Edges(tree)[k]) else None
  {
    KeysLook(tree, k);
  }

  lemma AllEdges<V>(tree: Tree<V>)
    ensures forall k :: Look(tree, k) == if k in Edges(tree) then Some(Edges(tree)[k]) else None
  {
    forall k
      ensures Look(tree, k) == if k in Edges(tree) then Some(Edges(tree)[k]) else None
    {
      EdgesLook(tree, k);
    }
  }

  /** Two edge maps are equal if they agree at every triple. */
  lemma EdgesEqual<V>(tree: Tree<V>, edges: map<Triple, V>)
    requires forall k :: Look(tree, k) == if k in edges then Some(edges[k]) else None
    ensures Edges(tree) == edges
  {
    forall k
      ensures k in Edges(tree) <==> k in edges
      ensures k in edges ==> Edges(tree)[k] == edges[k]
    {
      EdgesLook(tree, k);
    }
  }

  // ----- storing an inner map, or deleting it when it has become empty -----

  function PutUsers<V>(docs: Docs<V>, doc: string, users: Users<V>): Docs<V> {
    if users.Keys == {} then docs - {doc} else docs[doc := users]
  }

  function PutDocs<V>(tree: Tree<V>, tenant: string, docs: Docs<V>): Tree<V> {
    if docs.Keys == {} then tree - {tenant} else tree[tenant := docs]
  }

  lemma PutUsersLaw<V>(docs: Docs<V>, doc: string, users: Users<V>, d: string, u: string)
    ensures LookDocs(PutUsers(docs, doc, users), d, u)
         == if d != doc then LookDocs(docs, d, u) else if u in users then Some(users[u]) else None
  {
    assert u in users <==> u in users.Keys;
  }

  lemma PutDocsLaw<V>(tree: Tree<V>, tenant: string, docs: Docs<V>, k: Triple)
    ensures Look(PutDocs(tree, tenant, docs), k)
         == if k.tenant != tenant then Look(tree, k) else LookDocs(docs, k.doc, k.user)
  {
    assert k.doc in docs <==> k.doc in docs.Keys;
  }

  lemma PutPruned<V>(tree: Tree<V>, tenant: string, docs: Docs<V>)
    requires Pruned(tree) && PrunedDocs(docs)
    ensures Pruned(PutDocs(tree, tenant, docs))
  {
  }

  /** Stores the users of one document of a tenant, pruning upward. */
  method Store<V>(tree: Tree<V>, tenant: string, doc: string, users: Users<V>) returns (r: Tree<V>)
    requires Pruned(tree)
    ensures Pruned(r)
    ensures forall k ::
              Look(r, k) == if k.tenant != tenant || k.doc != doc then Look(tree, k)
                            else if k.user in users then Some(users[k.user]) else None
  {
    var docs: Docs<V> := if tenant in tree then tree[tenant] else map[];
    var docs' := PutUsers(docs, doc, users);
    r := PutDocs(tree, tenant, docs');
    PutPruned(tree, tenant, docs');
    forall k
      ensures Look(r, k) == if k.tenant != tenant || k.doc != doc then Look(tree, k)
                            else if k.user in users then Some(users[k.user]) else None
    {
      PutDocsLaw(tree, tenant, docs', k);
      PutUsersLaw(docs, doc, users, k.doc, k.user);
    }
  }

  /** Deletes one edge if it is there. */
  method DeleteEdge<V>(tree: Tree<V>, k: Triple) returns (r: Tree<V>)
    requires Pruned(tree)
    ensures Pruned(r) && Edges(r) == Edges(tree) - {k} && Edges(r).Keys == Edges(tree).Keys - {k}
  {
    r := tree;
    if k.tenant in tree && k.doc in tree[k.tenant] {
      r := Store(tree, k.tenant, k.doc, tree[k.tenant][k.doc] - {k.user});
    }
    AllEdges(tree);
    EdgesEqual(r, Edges(tree) - {k});
  }

  /** Adds or overwrites one edge, creating the inner maps it needs. */
  method AddEdge<V>(tree: Tree<V>, k: Triple, v: V) returns (r: Tree<V>)
    requires Pruned(tree)
    ensures Pruned(r) && Edges(r) == Edges(tree)[k := v] && Edges(r).Keys == Edges(tree).Keys + {k}
  {
    var docs: Docs<V> := if k.tenant in tree then tree[k.tenant] else map[];
    var users: Users<V> := if k.doc in docs then docs[k.doc] else map[];
    r := Store(tree, k.tenant, k.doc, users[k.user := v]);
    AllEdges(tree);
    EdgesEqual(r, Edges(tree)[k := v]);
  }

  /** No triple is an edge of both trees. */
  ghost predicate Separate<V, W>(x: Tree<V>, y: Tree<W>) {
    Edges(x).Keys !! Edges(y).Keys
  }

  /** Adds an edge to one tree and deletes it from the other. */
  method MoveEdge<V, W>(into: Tree<V>, from: Tree<W>, k: Triple, v: V) returns (x: Tree<V>, y: Tree<W>)
    requires Pruned(into) && Pruned(from) && Separate(into, from)
    ensures Pruned(x) && Pruned(y) && Separate(x, y)
    ensures Edges(x) == Edges(into)[k := v] && Edges(x).Keys == Edges(into).Keys + {k}
    ensures Edges(y) == Edges(from) - {k} && Edges(y).Keys == Edges(from).Keys - {k}
  {
    x := AddEdge(into, k, v);
    y := DeleteEdge(from, k);
    MoveDisjoint(Edges(into).Keys, Edges(from).Keys, k);
  }

  /** Deletes an edge from both trees. */
  method DropEdge<V, W>(x: Tree<V>, y: Tree<W>, k: Triple) returns (x': Tree<V>, y': Tree<W>)
    requires Pruned(x) && Pruned(y) && Separate(x, y)
    ensures Pruned(x') && Pruned(y') && Separate(x', y')
    ensures Edges(x').Keys == Edges(x).Keys - {k} && Edges(y') == Edges(y) - {k}
  {
    x' := DeleteEdge(x, k);
    y' := DeleteEdge(y, k);
  }

  lemma MoveDisjoint<T>(into: set<T>, from: set<T>, x: T)
    requires into !! from
    ensures into + {x} !! from - {x}
  {
  }

  /** What is left of the edges once those of one user in one tenant are gone. */
  ghost function WithoutUser<V>(edges: map<Triple, V>, tenant: string, user: string): map<Triple, V> {
    map k | k in edges && !(k.tenant == tenant && k.user == user) :: edges[k]
  }

  /** Deletes a user from every document of a tenant, pruning on the way. */
  method DeleteUser<V>(tree: Tree<V>, tenant: string, user: string) returns (r: Tree<V>)
    requires Pruned(tree)
    ensures Pruned(r) && Edges(r) == WithoutUser(Edges(tree), tenant, user)
  {
    r := tree;
    if tenant in tree {
      var docs := DeleteUserFromDocs(tree[tenant], user);
      r := PutDocs(tree, tenant, docs);
      PutPruned(tree, tenant, docs);
      forall k {
        PutDocsLaw(tree, tenant, docs, k);
      }
    }
    AllEdges(tree);
    EdgesEqual(r, WithoutUser(Edges(tree), tenant, user));
  }

  method DeleteUserFromDocs<V>(all: Docs<V>, user: string) returns (docs: Docs<V>)
    requires PrunedDocs(all)
    ensures PrunedDocs(docs)
    ensures forall d, u :: LookDocs(docs, d, u) == if u == user then None else LookDocs(all, d, u)
  {
    docs := all;
    var todo := all.Keys;
    while todo != {}
      invariant PrunedDocs(docs) && todo <= docs.Keys
      invariant forall d, u :: LookDocs(docs, d, u) == if u == user && d !in todo then None else LookDocs(all, d, u)
      invariant forall d :: d in todo ==> d in all && docs[d] == all[d]
      decreases todo
    {
      var d :| d in todo;
      var users := docs[d] - {user};
      forall d', u {
        PutUsersLaw(docs, d, users, d', u);
      }
      docs := PutUsers(docs, d, users);
      todo := todo - {d};
    }
  }

  // ----- counting -----

  ghost function OfTenants<V>(tree: Tree<V>, tenants: set<string>): set<Triple> {
    set k | k in Edges(tree) && k.tenant in tenants
  }

  ghost function OfDocs<V>(tree: Tree<V>, tenant: string, docs: set<string>): set<Triple> {
    set k | k in Edges(tree) && k.tenant == tenant && k.doc in docs
  }

  ghost function OfDoc(tenant: string, doc: string, users: set<string>): set<Triple> {
    set u | u in users :: Triple(tenant, doc, u)
  }

  lemma {:induction false} UsersCount(tenant: string, doc: string, users: set<string>)
    ensures |OfDoc(tenant, doc, users)| == |users|
    decreases users
  {
    if users != {} {
      var u :| u in users;
      UsersCount(tenant, doc, users - {u});
      assert OfDoc(tenant, doc, users) == OfDoc(tenant, doc, users - {u}) + {Triple(tenant, doc, u)};
    }
  }

  lemma UnionSize<T>(xs: set<T>, ys: set<T>, all: set<T>)
    requires xs !! ys && forall x :: x in all <==> x in xs || x in ys
    ensures |all| == |xs| + |ys|
  {
    assert all == xs + ys;
  }

  lemma DocEdges<V>(tree: Tree<V>, tenant: string, doc: string, k: Triple)
    requires tenant in tree && doc in tree[tenant]
    ensures k in OfDoc(tenant, doc, tree[tenant][doc].Keys) <==> k in Edges(tree) && k.tenant == tenant && k.doc == doc
  {
    EdgesLook(tree, k);
    assert k == Triple(k.tenant, k.doc, k.user);
  }

  lemma OneMoreDoc<V>(tree: Tree<V>, tenant: string, docs: set<string>, doc: string)
    requires tenant in tree && doc in tree[tenant] && doc !in docs
    ensures |OfDocs(tree, tenant, docs + {doc})| == |OfDocs(tree, tenant, docs)| + |tree[tenant][doc]|
  {
    var added := OfDoc(tenant, doc, tree[tenant][doc].Keys);
    UsersCount(tenant, doc, tree[tenant][doc].Keys);
    forall k {
      DocEdges(tree, tenant, doc, k);
    }
    UnionSize(OfDocs(tree, tenant, docs), added, OfDocs(tree, tenant, docs + {doc}));
  }

  lemma OneMoreTenant<V>(tree: Tree<V>, tenants: set<string>, tenant: string)
    requires tenant in tree && tenant !in tenants
    ensures |OfTenants(tree, tenants + {tenant})|
         == |OfTenants(tree, tenants)| + |OfDocs(tree, tenant, tree[tenant].Keys)|
  {
    forall k | k in Edges(tree) && k.tenant == tenant
      ensures k.doc in tree[tenant].Keys
    {
      EdgesLook(tree, k);
    }
    UnionSize(OfTenants(tree, tenants), OfDocs(tree, tenant, tree[tenant].Keys), OfTenants(tree, tenants + {tenant}));
  }

  /** Adds up the sizes of the innermost maps. */
  method CountEdges<V>(tree: Tree<V>) returns (n: nat)
    ensures n == |Edges(tree)|
  {
    n := 0;
    var tenants := tree.Keys;
    assert OfTenants(tree, {}) == {};
    while tenants != {}
      invariant tenants <= tree.Keys && n == |OfTenants(tree, tree.Keys - tenants)|
      decreases tenants
    {
      var t :| t in tenants;
      var m := CountDocs(tree, t);
      OneMoreTenant(tree, tree.Keys - tenants, t);
      assert tree.Keys - (tenants - {t}) == tree.Keys - tenants + {t};
      n := n + m;
      tenants := tenants - {t};
    }
    assert OfTenants(tree, tree.Keys - {}) == Edges(tree).Keys by {
      forall k | k in Edges(tree)
        ensures k.tenant in tree.Keys
      {
        EdgesLook(tree, k);
      }
    }
  }

  method CountDocs<V>(tree: Tree<V>, tenant: string) returns (n: nat)
    requires tenant in tree
    ensures n == |OfDocs(tree, tenant, tree[tenant].Keys)|
  {
    n := 0;
    var docs := tree[tenant].Keys;
    assert OfDocs(tree, tenant, {}) == {};
    while docs != {}
      invariant docs <= tree[tenant].Keys && n == |OfDocs(tree, tenant, tree[tenant].Keys - docs)|
      decreases docs
    {
      var d :| d in docs;
      OneMoreDoc(tree, tenant, tree[tenant].Keys - docs, d);
      assert tree[tenant].Keys - (docs - {d}) == tree[tenant].Keys - docs + {d};
      n := n + |tree[tenant][d]|;
      docs := docs - {d};
    }
    assert tree[tenant].Keys - {} == tree[tenant].Keys;
  }
}
