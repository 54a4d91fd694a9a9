/**
The issuance log and its consent-revocation cascade
(internal/adapters/sqlite/issuance_store.go, internal/ports/output/issuance_store.go,
testdata/suite_issuance_store.go).  A NULL column is None.
*/
module Issuances {
  import opened Options

  datatype Kind = Mint | Broker

  /** The consent triple a cascade is run for. */
  datatype Grant = Grant(user: string, client: string, resource: string)

  datatype Row = Row(
    user: string, client: string, resource: string, kind: Kind, revokedAt: Option<nat>,
    jti: Option<string>, consentClient: Option<string>, parentJti: Option<string>)

  /** Rows by primary key. */
  type Table = map<string, Row>

  predicate Walkable(r: Row) {
    r.kind.Mint? && r.jti.Some?
  }

  /** Minted under the grant; a row older than the lineage columns matches on the acting client. */
  predicate IsRoot(r: Row, g: Grant) {
    && Walkable(r) && r.user == g.user && r.resource == g.resource
    && (r.consentClient == Some(g.client) || (r.consentClient.None? && r.client == g.client))
  }

  predicate IsChild(r: Row, parent: string) {
    Walkable(r) && r.parentJti == Some(parent)
  }

  // ---------------------------------------------------------------------------
  // The lineage, defined by chains of parent links

  ghost predicate RootJti(t: Table, g: Grant, j: string) {
    exists id :: id in t && IsRoot(t[id], g) && t[id].jti == Some(j)
  }

  ghost predicate Link(t: Table, a: string, b: string) {
    exists id :: id in t && IsChild(t[id], a) && t[id].jti == Some(b)
  }

  ghost predicate Chain(t: Table, g: Grant, p: seq<string>) {
    && p != [] && RootJti(t, g, p[0])
    && forall i :: 0 < i < |p| ==> Link(t, p[i - 1], p[i])
  }

  ghost predicate InLineage(t: Table, g: Grant, j: string) {
    exists p :: Chain(t, g, p) && p[|p| - 1] == j
  }

  /** The ids of the Mint rows a cascade for `g` reaches. */
  ghost function Family(t: Table, g: Grant): set<string> {
    set id | id in t && Walkable(t[id]) && InLineage(t, g, t[id].jti.value)
  }

  /** Holds the roots and is closed under parent links. */
  ghost predicate Closed(t: Table, g: Grant, js: set<string>) {
    && (forall j :: RootJti(t, g, j) ==> j in js)
    && (forall a, b :: a in js && Link(t, a, b) ==> b in js)
  }

  lemma LineageRoot(t: Table, g: Grant, j: string)
    requires RootJti(t, g, j)
    ensures InLineage(t, g, j)
  {
    assert Chain(t, g, [j]);
  }

  lemma LineageChild(t: Table, g: Grant, a: string, b: string)
    requires InLineage(t, g, a) && Link(t, a, b)
    ensures InLineage(t, g, b)
  {
    var p :| Chain(t, g, p) && p[|p| - 1] == a;
    var q := p + [b];
    forall i | 0 < i < |q| ensures Link(t, q[i - 1], q[i]) {
      if i < |p| { assert Link(t, p[i - 1], p[i]); }
    }
    assert Chain(t, g, q) && q[|q| - 1] == b;
  }

  lemma {:induction false} ClosedHoldsChain(t: Table, g: Grant, js: set<string>, p: seq<string>, i: nat)
    requires Closed(t, g, js) && Chain(t, g, p) && i < |p|
    ensures p[i] in js
  {
    if i > 0 {
      ClosedHoldsChain(t, g, js, p, i - 1);
      assert Link(t, p[i - 1], p[i]);
    }
  }

  /** The lineage is the least set that holds the roots and is closed under parent links. */
  lemma LineageLeast(t: Table, g: Grant, js: set<string>)
    requires Closed(t, g, js)
    ensures forall j :: InLineage(t, g, j) ==> j in js
  {
    forall j | InLineage(t, g, j) ensures j in js {
      var p :| Chain(t, g, p) && p[|p| - 1] == j;
      ClosedHoldsChain(t, g, js, p, |p| - 1);
    }
  }

  // ---------------------------------------------------------------------------
  // Marking rows revoked

  function Revoked(t: Table, ids: set<string>, now: nat): Table {
    map id | id in t ::
      if id in ids && t[id].revokedAt.None? then t[id].(revokedAt := Some(now)) else t[id]
  }

  function Live(t: Table, ids: set<string>): set<string> {
    set id | id in t && id in ids && t[id].revokedAt.None?
  }

  /** The lineage reads no revocation mark, so marking rows never changes it. */
  lemma FamilyIgnoresMarks(t: Table, g: Grant, ids: set<string>, now: nat)
    ensures Family(Revoked(t, ids, now), g) == Family(t, g)
  {
    SameLinksSameFamily(t, Revoked(t, ids, now), g);
  }

  lemma SameLinksSameFamily(t: Table, t': Table, g: Grant)
    requires t.Keys == t'.Keys
    requires forall id :: id in t ==> t'[id].(revokedAt := None) == t[id].(revokedAt := None)
    ensures Family(t', g) == Family(t, g)
  {}

  lemma LineageCarries(t: Table, t': Table, g: Grant, j: string)
    requires t.Keys <= t'.Keys
    requires forall id :: id in t ==> t'[id].(revokedAt := None) == t[id].(revokedAt := None)
    ensures InLineage(t, g, j) ==> InLineage(t', g, j)
  {}

  /** A second cascade for the same grant finds nothing live and changes nothing. */
  lemma CascadeIdempotent(t: Table, g: Grant, now: nat, later: nat)
    ensures var t' := Revoked(t, Family(t, g), now);
            && Live(t', Family(t', g)) == {}
            && Revoked(t', Family(t', g), later) == t'
  {
    FamilyIgnoresMarks(t, g, Family(t, g), now);
  }

  lemma MarksCommute(t: Table, a: set<string>, b: set<string>, now: nat)
    ensures Revoked(Revoked(t, a, now), b, now) == Revoked(Revoked(t, b, now), a, now)
  {}

  /** Cascades for two grants revoke the same rows in either order. */
  lemma CascadesCommute(t: Table, g: Grant, h: Grant, now: nat)
    ensures var tg := Revoked(t, Family(t, g), now);
            var th := Revoked(t, Family(t, h), now);
            Revoked(tg, Family(tg, h), now) == Revoked(th, Family(th, g), now)
  {
    FamilyIgnoresMarks(t, g, Family(t, h), now);
    FamilyIgnoresMarks(t, h, Family(t, g), now);
    MarksCommute(t, Family(t, g), Family(t, h), now);
  }

  // ---------------------------------------------------------------------------
  // Adding a row nothing points to yet

  /** A new row joins the family exactly when it is a root or its parent is in the lineage. */
  lemma FamilyAfterInsert(t: Table, g: Grant, id: string, r: Row)
    requires id !in t && Walkable(r)
    requires forall other :: other in t ==> t[other].jti != r.jti && t[other].parentJti != r.jti
    requires r.parentJti != r.jti
    ensures Family(t[id := r], g) ==
            Family(t, g) + if IsRoot(r, g) || (r.parentJti.Some? && InLineage(t, g, r.parentJti.value)) then {id} else {}
  {
    var t' := t[id := r];
    var j := r.jti.value;
    var joins := IsRoot(r, g) || (r.parentJti.Some? && InLineage(t, g, r.parentJti.value));
    forall other | other in t && Walkable(t[other])
      ensures other in Family(t', g) <==> other in Family(t, g)
    {
      LineageCarries(t, t', g, t[other].jti.value);
      OldLineage(t, g, id, r, t[other].jti.value);
    }
    if joins {
      if IsRoot(r, g) {
        assert t'[id].jti == Some(j);
        LineageRoot(t', g, j);
      } else {
        LineageCarries(t, t', g, r.parentJti.value);
        assert IsChild(t'[id], r.parentJti.value);
        LineageChild(t', g, r.parentJti.value, j);
      }
    } else {
      NewcomerOutside(t, g, id, r);
    }
  }

  /** Chains of the larger table that end at an old token never pass through the new one. */
  lemma {:induction false} OldChain(t: Table, g: Grant, id: string, r: Row, p: seq<string>)
    requires id !in t && Walkable(r)
    requires forall other :: other in t ==> t[other].parentJti != r.jti
    requires r.parentJti != r.jti
    requires Chain(t[id := r], g, p) && Some(p[|p| - 1]) != r.jti
    ensures Chain(t, g, p)
    decreases |p|
  {
    var t' := t[id := r];
    var n := |p| - 1;
    if n == 0 {
      assert RootJti(t', g, p[0]);
      assert RootJti(t, g, p[0]);
    } else {
      assert Link(t', p[n - 1], p[n]);
      var child :| child in t' && IsChild(t'[child], p[n - 1]) && t'[child].jti == Some(p[n]);
      assert child in t && Some(p[n - 1]) != r.jti;
      assert Link(t, p[n - 1], p[n]);
      var q := p[..n];
      assert Chain(t', g, q) by {
        forall i | 0 < i < n ensures Link(t', q[i - 1], q[i]) { assert Link(t', p[i - 1], p[i]); }
      }
      OldChain(t, g, id, r, q);
      forall i | 0 < i < |p| ensures Link(t, p[i - 1], p[i]) {
        if i < n { assert Link(t, q[i - 1], q[i]); }
      }
    }
  }

  lemma OldLineage(t: Table, g: Grant, id: string, r: Row, j: string)
    requires id !in t && Walkable(r)
    requires forall other :: other in t ==> t[other].parentJti != r.jti
    requires r.parentJti != r.jti && Some(j) != r.jti
    ensures InLineage(t[id := r], g, j) ==> InLineage(t, g, j)
  {
    if InLineage(t[id := r], g, j) {
      var p :| Chain(t[id := r], g, p) && p[|p| - 1] == j;
      OldChain(t, g, id, r, p);
    }
  }

  lemma NewcomerOutside(t: Table, g: Grant, id: string, r: Row)
    requires id !in t && Walkable(r)
    requires forall other :: other in t ==> t[other].jti != r.jti && t[other].parentJti != r.jti
    requires r.parentJti != r.jti
    requires !IsRoot(r, g) && (r.parentJti.Some? ==> !InLineage(t, g, r.parentJti.value))
    ensures !InLineage(t[id := r], g, r.jti.value)
  {
    var t' := t[id := r];
    var j := r.jti.value;
    if InLineage(t', g, j) {
      var p :| Chain(t', g, p) && p[|p| - 1] == j;
      var n := |p| - 1;
      if n > 0 {
        assert Link(t', p[n - 1], p[n]);
        assert r.parentJti == Some(p[n - 1]);
        assert Chain(t', g, p[..n]) by {
          forall i | 0 < i < n ensures Link(t', p[..n][i - 1], p[..n][i]) { assert Link(t', p[i - 1], p[i]); }
        }
        OldLineage(t, g, id, r, p[n - 1]);
      }
    }
  }

  // ---------------------------------------------------------------------------
  // The family, on the columns

  lemma LineageHasRow(t: Table, g: Grant, j: string)
    requires InLineage(t, g, j)
    ensures exists id :: id in t && Walkable(t[id]) && t[id].jti == Some(j)
  {
    var p :| Chain(t, g, p) && p[|p| - 1] == j;
    if |p| > 1 { assert Link(t, p[|p| - 2], p[|p| - 1]); }
  }

  /** The partial unique index on jti. */
  ghost predicate UniqueTokens(t: Table) {
    forall a, b :: a in t && b in t && a != b && t[a].jti.Some? ==> t[a].jti != t[b].jti
  }

  /** Minted under the grant: by its consent client, or with none recorded by its acting client. */
  predicate MintedUnder(r: Row, g: Grant) {
    && r.user == g.user && r.resource == g.resource
    && match r.consentClient
       case Some(c) => c == g.client
       case None => r.client == g.client
  }

  ghost predicate ParentIn(t: Table, ids: set<string>, r: Row) {
    exists q :: q in ids && q in t && t[q].kind.Mint? && t[q].jti.Some? && r.parentJti == t[q].jti
  }

  /** What a cascade must reach: roots of the grant, and whatever was exchanged from a row it reaches. */
  ghost predicate Reaches(t: Table, g: Grant, ids: set<string>, id: string)
    requires id in t
  {
    t[id].kind.Mint? && t[id].jti.Some? && (MintedUnder(t[id], g) || ParentIn(t, ids, t[id]))
  }

  lemma ChainPrefix(t: Table, g: Grant, p: seq<string>)
    requires Chain(t, g, p) && |p| > 1
    ensures Chain(t, g, p[..|p| - 1])
  {
    var q := p[..|p| - 1];
    forall i | 0 < i < |q| ensures Link(t, q[i - 1], q[i]) { assert Link(t, p[i - 1], p[i]); }
  }

  lemma FamilyParent(t: Table, g: Grant, id: string)
    requires UniqueTokens(t) && id in Family(t, g)
    ensures Reaches(t, g, Family(t, g), id)
  {
    var j := t[id].jti.value;
    var p :| Chain(t, g, p) && p[|p| - 1] == j;
    if |p| == 1 {
      var root :| root in t && IsRoot(t[root], g) && t[root].jti == Some(j);
      assert root == id;
    } else {
      var a := p[|p| - 2];
      assert Link(t, p[|p| - 2], p[|p| - 1]);
      var child :| child in t && IsChild(t[child], a) && t[child].jti == Some(j);
      assert child == id;
      ChainPrefix(t, g, p);
      assert InLineage(t, g, a);
      LineageHasRow(t, g, a);
      var q :| q in t && Walkable(t[q]) && t[q].jti == Some(a);
      assert q in Family(t, g);
    }
  }

  /** A row is in the family if and only if it is a root of the grant or its parent's row is in the family. */
  lemma FamilyOnColumns(t: Table, g: Grant, id: string)
    requires UniqueTokens(t) && id in t
    ensures id in Family(t, g) <==> Reaches(t, g, Family(t, g), id)
  {
    if id in Family(t, g) {
      FamilyParent(t, g, id);
    } else if Reaches(t, g, Family(t, g), id) {
      var j := t[id].jti.value;
      if MintedUnder(t[id], g) {
        assert IsRoot(t[id], g) && t[id].jti == Some(j);
        LineageRoot(t, g, j);
      } else {
        var q :| q in Family(t, g) && q in t && t[q].kind.Mint? && t[q].jti.Some? && t[id].parentJti == t[q].jti;
        assert IsChild(t[id], t[q].jti.value) && t[id].jti == Some(j);
        LineageChild(t, g, t[q].jti.value, j);
      }
    }
  }

  /** And it is the least such set, so cycles of parent links reach nothing by themselves. */
  lemma FamilyLeast(t: Table, g: Grant, ids: set<string>)
    requires UniqueTokens(t) && forall id :: id in t && Reaches(t, g, ids, id) ==> id in ids
    ensures Family(t, g) <= ids
  {
    var js := set id | id in ids && id in t && Walkable(t[id]) :: t[id].jti.value;
    forall j | RootJti(t, g, j) ensures j in js {
      var id :| id in t && IsRoot(t[id], g) && t[id].jti == Some(j);
      assert Reaches(t, g, ids, id);
    }
    forall a, b | a in js && Link(t, a, b) ensures b in js {
      var q :| q in ids && q in t && Walkable(t[q]) && t[q].jti.value == a;
      var id :| id in t && IsChild(t[id], a) && t[id].jti == Some(b);
      assert ParentIn(t, ids, t[id]);
      assert Reaches(t, g, ids, id);
    }
    LineageLeast(t, g, js);
    forall id | id in Family(t, g) ensures id in ids {
      var other :| other in ids && other in t && Walkable(t[other]) && t[other].jti.value == t[id].jti.value;
      assert other == id;
    }
  }

  /** A token without a parent is in the family exactly when it was minted under the grant; a Broker row never is. */
  lemma ParentlessInFamily(t: Table, g: Grant, id: string)
    requires UniqueTokens(t) && id in t && t[id].parentJti.None?
    ensures id in Family(t, g) <==>
              && t[id].kind.Mint? && t[id].jti.Some? && t[id].user == g.user && t[id].resource == g.resource
              && (t[id].consentClient == Some(g.client) || (t[id].consentClient.None? && t[id].client == g.client))
  {
    FamilyOnColumns(t, g, id);
  }

  /** What a cascade does to a table, on the columns: the reached rows that were live get the mark. */
  ghost predicate Cascaded(t: Table, g: Grant, now: nat, t': Table) {
    && t'.Keys == t.Keys
    && forall id :: id in t ==>
         t'[id] == if Reaches(t, g, Family(t, g), id) && t[id].revokedAt.None?
                   then t[id].(revokedAt := Some(now)) else t[id]
  }

  lemma CascadeOnColumns(t: Table, g: Grant, now: nat)
    requires UniqueTokens(t)
    ensures var t' := Revoked(t, Family(t, g), now);
            && Cascaded(t, g, now, t')
            && Live(t, Family(t, g)) == set id | id in t && t'[id].revokedAt != t[id].revokedAt
  {
    forall id | id in t ensures id in Family(t, g) <==> Reaches(t, g, Family(t, g), id) { FamilyOnColumns(t, g, id); }
  }

  // ---------------------------------------------------------------------------
  // The store

  class IssuanceStore {
    var rows: Table

    ghost predicate Valid()
      reads this
    {
      UniqueTokens(rows)
    }

    constructor ()
      ensures Valid() && rows == map[]
    {
      rows := map[];
    }

    /** Refuses a duplicate id or jti and then changes nothing. */
    method Insert(id: string, r: Row) returns (ok: bool)
      requires Valid()
      modifies this
      ensures Valid()
      ensures ok <==> id !in old(rows) && (r.jti.Some? ==> forall other :: other in old(rows) ==> old(rows)[other].jti != r.jti)
      ensures rows == if ok then old(rows)[id := r] else old(rows)
    {
      ok := id !in rows && (r.jti.Some? ==> forall other :: other in rows ==> rows[other].jti != r.jti);
      if ok { rows := rows[id := r]; }
    }

    /** Marks one row; an unknown id or a row already marked is left as it is. */
    method Revoke(id: string, now: nat)
      requires Valid()
      modifies this
      ensures Valid() && rows == Revoked(old(rows), {id}, now)
      ensures rows.Keys == old(rows).Keys && forall o :: o in rows && o != id ==> rows[o] == old(rows)[o]
      ensures id in rows ==>
                rows[id] == if old(rows)[id].revokedAt.None? then old(rows)[id].(revokedAt := Some(now)) else old(rows)[id]
    {
      if id in rows && rows[id].revokedAt.None? {
        rows := rows[id := rows[id].(revokedAt := Some(now))];
      }
    }

    /**
    Revokes the whole family of the grant: exactly the Mint rows of the lineage that are still
    live are marked, every other row is untouched, and their number is returned.
    */
    method RevokeFamily(g: Grant, now: nat) returns (n: nat)
      requires Valid()
      modifies this
      ensures Valid()
      ensures rows == Revoked(old(rows), Family(old(rows), g), now)
      ensures Cascaded(old(rows), g, now, rows)
      ensures n == |set id | id in old(rows) && rows[id].revokedAt != old(rows)[id].revokedAt|
    {
      CascadeOnColumns(rows, g, now);
      var lineage := Lineage(rows, g);
      MarkLive(rows, Family(rows, g), now);
      rows, n := UpdateLineage(rows, lineage, Live(rows, Family(rows, g)), now);
    }
  }

  ghost predicate ClosedIn(kids: map<string, set<string>>, js: set<string>) {
    forall a :: a in js && a in kids ==> kids[a] <= js
  }

  ghost predicate LeastSoFar(roots: set<string>, kids: map<string, set<string>>, lineage: set<string>) {
    forall js :: roots <= js && ClosedIn(kids, js) ==> lineage <= js
  }

  /** What the walk keeps: only queued tokens may have children it has not reached. */
  ghost predicate Walk(roots: set<string>, kids: map<string, set<string>>, lineage: set<string>, queue: set<string>) {
    && queue <= lineage <= kids.Keys && roots <= lineage
    && (forall a :: a in lineage && a !in queue ==> kids[a] <= lineage)
    && LeastSoFar(roots, kids, lineage)
  }

  lemma WalkStep(roots: set<string>, kids: map<string, set<string>>, lineage: set<string>, queue: set<string>, next: string)
    requires Walk(roots, kids, lineage, queue) && next in queue && kids[next] <= kids.Keys
    ensures var unseen := kids[next] - lineage;
            Walk(roots, kids, lineage + unseen, queue - {next} + unseen)
  {
    var unseen := kids[next] - lineage;
    forall js | roots <= js && ClosedIn(kids, js) ensures lineage + unseen <= js {
      assert lineage <= js && next in js;
    }
    forall a | a in lineage + unseen && a !in queue - {next} + unseen ensures kids[a] <= lineage + unseen {
      assert a == next || kids[a] <= lineage;
    }
  }

  lemma WalkShrinks(all: set<string>, lineage: set<string>, unseen: set<string>)
    requires unseen <= all && unseen !! lineage
    ensures unseen != {} ==> |all - (lineage + unseen)| < |all - lineage|
    ensures unseen == {} ==> all - (lineage + unseen) == all - lineage
  {
    if unseen != {} {
      var x :| x in unseen;
      assert x in all - lineage && x !in all - (lineage + unseen);
      StrictSubsetSize(all - (lineage + unseen), all - lineage);
    }
  }

  /** The recursive query: a queue of tokens whose children are still to be found. */
  method Reach(roots: set<string>, kids: map<string, set<string>>) returns (lineage: set<string>)
    requires roots <= kids.Keys && forall a :: a in kids ==> kids[a] <= kids.Keys
    ensures roots <= lineage && ClosedIn(kids, lineage)
    ensures LeastSoFar(roots, kids, lineage)
  {
    lineage := roots;
    var queue := roots;
    while queue != {}
      invariant Walk(roots, kids, lineage, queue)
      decreases |kids.Keys - lineage|, |queue|
    {
      var next :| next in queue;
      var unseen := kids[next] - lineage;
      WalkStep(roots, kids, lineage, queue, next);
      WalkShrinks(kids.Keys, lineage, unseen);
      lineage, queue := lineage + unseen, queue - {next} + unseen;
    }
  }

  method Lineage(t: Table, g: Grant) returns (lineage: set<string>)
    ensures forall j :: j in lineage <==> InLineage(t, g, j)
  {
    var kids := map j | j in Tokens(t) :: Children(t, j);
    RootsInLineage(t, g);
    forall a | a in kids ensures kids[a] <= kids.Keys { ChildrenAreLinks(t, a); }
    lineage := Reach(Roots(t, g), kids);
    ReachIsLineage(t, g, kids, lineage);
  }

  lemma ReachIsLineage(t: Table, g: Grant, kids: map<string, set<string>>, lineage: set<string>)
    requires kids == map j | j in Tokens(t) :: Children(t, j)
    requires Roots(t, g) <= lineage && ClosedIn(kids, lineage)
    requires LeastSoFar(Roots(t, g), kids, lineage)
    ensures forall j :: j in lineage <==> InLineage(t, g, j)
  {
    RootsInLineage(t, g);
    var js := set j | j in Tokens(t) && InLineage(t, g, j);
    forall a | a in js && a in kids ensures kids[a] <= js { ChildrenInLineage(t, g, a); }
    assert ClosedIn(kids, js);
    assert lineage <= js;
    forall a, b | a in lineage && Link(t, a, b) ensures b in lineage { ChildrenAreLinks(t, a); }
    LineageLeast(t, g, lineage);
  }

  /** The update so far: the targets among the rows already looked at are marked and counted. */
  ghost predicate Updated(t: Table, targets: set<string>, remaining: set<string>, now: nat, t': Table, n: nat) {
    && remaining <= t.Keys
    && t' == Revoked(t, targets - remaining, now)
    && n == |targets - remaining|
  }

  lemma UpdateStep(t: Table, targets: set<string>, remaining: set<string>, now: nat, t': Table, n: nat, id: string)
    requires Updated(t, targets, remaining, now, t', n) && id in remaining
    requires id in targets ==> t[id].revokedAt.None?
    ensures id in t' && t'[id] == t[id]
    ensures id !in targets ==> Updated(t, targets, remaining - {id}, now, t', n)
    ensures id in targets ==>
              Updated(t, targets, remaining - {id}, now, t'[id := t[id].(revokedAt := Some(now))], n + 1)
  {
    var marked := targets - remaining;
    if id in targets {
      assert targets - (remaining - {id}) == marked + {id};
      MarkOne(t, marked, id, now);
    } else {
      assert targets - (remaining - {id}) == marked;
    }
  }

  /** The update: `targets` are the live Mint rows whose token is in the lineage. */
  method UpdateLineage(t: Table, lineage: set<string>, ghost targets: set<string>, now: nat) returns (t': Table, n: nat)
    requires targets <= t.Keys
    requires forall id :: id in t ==> (id in targets <==> InUpdate(t[id], lineage))
    ensures t' == Revoked(t, targets, now)
    ensures n == |targets|
  {
    var remaining := t.Keys;
    t', n := t, 0;
    MarkNone(t, now);
    assert targets - remaining == {};
    while remaining != {}
      invariant Updated(t, targets, remaining, now, t', n)
      decreases |remaining|
    {
      var id :| id in remaining;
      UpdateStep(t, targets, remaining, now, t', n, id);
      remaining := remaining - {id};
      var r := t'[id];
      if InUpdate(r, lineage) {
        t', n := t'[id := r.(revokedAt := Some(now))], n + 1;
      }
    }
    assert targets - remaining == targets;
  }

  predicate InUpdate(r: Row, lineage: set<string>) {
    r.jti.Some? && r.jti.value in lineage && r.kind.Mint? && r.revokedAt.None?
  }

  function Roots(t: Table, g: Grant): set<string> {
    set id | id in t && IsRoot(t[id], g) :: t[id].jti.value
  }

  function Children(t: Table, j: string): set<string> {
    set id | id in t && IsChild(t[id], j) :: t[id].jti.value
  }

  function Tokens(t: Table): set<string> {
    set id | id in t && t[id].jti.Some? :: t[id].jti.value
  }

  lemma RootsInLineage(t: Table, g: Grant)
    ensures forall j :: j in Roots(t, g) <==> RootJti(t, g, j)
    ensures forall j :: j in Roots(t, g) ==> InLineage(t, g, j)
    ensures Roots(t, g) <= Tokens(t)
  {
    forall j | j in Roots(t, g) ensures RootJti(t, g, j) && InLineage(t, g, j) {
      var id :| id in t && IsRoot(t[id], g) && t[id].jti.value == j;
      LineageRoot(t, g, j);
    }
  }

  lemma ChildrenAreLinks(t: Table, a: string)
    ensures forall b :: b in Children(t, a) <==> Link(t, a, b)
    ensures Children(t, a) <= Tokens(t)
  {}

  lemma ChildrenInLineage(t: Table, g: Grant, a: string)
    requires InLineage(t, g, a)
    ensures forall b :: b in Children(t, a) ==> InLineage(t, g, b)
    ensures Children(t, a) <= Tokens(t)
  {
    ChildrenAreLinks(t, a);
    forall b | b in Children(t, a) ensures InLineage(t, g, b) { LineageChild(t, g, a, b); }
  }

  lemma MarkOne(t: Table, ids: set<string>, id: string, now: nat)
    requires id in t && id !in ids && t[id].revokedAt.None?
    ensures Revoked(t, ids + {id}, now) == Revoked(t, ids, now)[id := t[id].(revokedAt := Some(now))]
  {}

  lemma MarkNone(t: Table, now: nat)
    ensures Revoked(t, {}, now) == t
  {}

  lemma MarkLive(t: Table, ids: set<string>, now: nat)
    ensures Revoked(t, Live(t, ids), now) == Revoked(t, ids, now)
  {}

  lemma StrictSubsetSize<T>(a: set<T>, b: set<T>)
    requires a < b
    ensures |a| < |b|
  {
    assert b == a + (b - a);
    assert b - a != {};
  }
}
