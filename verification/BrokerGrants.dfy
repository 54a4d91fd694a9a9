/**
The versioned broker grant row (testdata/suite_broker_grant_store.go,
internal/adapters/sqlite/broker_grant_store.go).  One row per (user, provider); a revoked row
keeps its slot and its id.
*/
module BrokerGrants {
  import opened Options

  type Pair = (string, string)
  datatype Row = Row(id: string, credential: string, version: nat, revokedAt: Option<int>)
  type Table = map<Pair, Row>

  datatype Op =
    | Create(pair: Pair, id: string, credential: string)
    | Upsert(pair: Pair, id: string, credential: string)
    | Update(id: string, version: nat, credential: string)
    | Revoke(id: string, now: int)

  predicate IdTaken(t: Table, id: string) {
    exists p :: p in t && t[p].id == id
  }

  predicate Hits(r: Row, op: Op) {
    op.Update? && r.id == op.id && r.version == op.version
  }

  /** Whether the store reports success: a unique key refuses an insert, a stale version an update. */
  predicate Succeeds(t: Table, op: Op) {
    match op
    case Create(p, id, _) => p !in t && !IdTaken(t, id)
    case Upsert(p, id, _) => p in t || !IdTaken(t, id)
    case Update(_, _, _) => exists p :: p in t && Hits(t[p], op)
    case Revoke(_, _) => true
  }

  function Post(t: Table, op: Op): Table {
    match op
    case Create(p, id, c) => if Succeeds(t, op) then t[p := Row(id, c, 1, None)] else t
    case Upsert(p, id, c) =>
      if p in t then t[p := Row(t[p].id, c, t[p].version + 1, None)]
      else if Succeeds(t, op) then t[p := Row(id, c, 1, None)] else t
    case Update(_, _, c) =>
      map p | p in t :: if Hits(t[p], op) then t[p].(credential := c, version := t[p].version + 1) else t[p]
    case Revoke(id, now) => map p | p in t :: if t[p].id == id then t[p].(revokedAt := Some(now)) else t[p]
  }

  ghost function After(ops: seq<Op>, i: nat): Table
    requires i <= |ops|
  {
    if i == 0 then map[] else Post(After(ops, i - 1), ops[i - 1])
  }

  // ---------------------------------------------------------------------------
  // Every run

  ghost predicate UniqueIds(t: Table) {
    forall p, q :: p in t && q in t && t[p].id == t[q].id ==> p == q
  }

  lemma {:induction false} IdsUnique(ops: seq<Op>, i: nat)
    requires i <= |ops|
    ensures UniqueIds(After(ops, i))
  {
    if i > 0 { IdsUnique(ops, i - 1); }
  }

  /** A step that gives the pair's existing row a new version: a winning update or a re-connect. */
  ghost predicate Bumps(t: Table, op: Op, p: Pair) {
    p in t && (Hits(t[p], op) || (op.Upsert? && op.pair == p))
  }

  lemma StepOnRow(t: Table, op: Op, p: Pair)
    requires p in t
    ensures p in Post(t, op) && Post(t, op)[p].id == t[p].id
    ensures Post(t, op)[p].version == t[p].version + if Bumps(t, op, p) then 1 else 0
  {}

  ghost function BumpCount(ops: seq<Op>, p: Pair, lo: nat, hi: nat): nat
    requires lo <= hi <= |ops|
    decreases hi
  {
    if lo == hi then 0
    else BumpCount(ops, p, lo, hi - 1) + if Bumps(After(ops, hi - 1), ops[hi - 1], p) then 1 else 0
  }

  /**
  A row once there stays, under one id, through revocations and re-connects, and its version
  grows by exactly the number of winning updates and conflicting upserts.
  */
  lemma {:induction false} RowHistory(ops: seq<Op>, p: Pair, lo: nat, hi: nat)
    requires lo <= hi <= |ops| && p in After(ops, lo)
    ensures p in After(ops, hi) && After(ops, hi)[p].id == After(ops, lo)[p].id
    ensures After(ops, hi)[p].version == After(ops, lo)[p].version + BumpCount(ops, p, lo, hi)
    decreases hi
  {
    if lo < hi {
      RowHistory(ops, p, lo, hi - 1);
      StepOnRow(After(ops, hi - 1), ops[hi - 1], p);
    }
  }

  /** So at any point the version is one plus the bumps since the row was created. */
  lemma {:induction false} VersionCountsBumps(ops: seq<Op>, p: Pair, i: nat)
    requires i <= |ops| && p in After(ops, i)
    ensures After(ops, i)[p].version == 1 + BumpCount(ops, p, 0, i)
  {
    if p in After(ops, i - 1) {
      VersionCountsBumps(ops, p, i - 1);
      StepOnRow(After(ops, i - 1), ops[i - 1], p);
    } else {
      NoBumpsBefore(ops, p, i - 1);
    }
  }

  lemma {:induction false} NoBumpsBefore(ops: seq<Op>, p: Pair, i: nat)
    requires i <= |ops| && p !in After(ops, i)
    ensures BumpCount(ops, p, 0, i) == 0
  {
    if i > 0 {
      if p in After(ops, i - 1) { StepOnRow(After(ops, i - 1), ops[i - 1], p); }
      NoBumpsBefore(ops, p, i - 1);
    }
  }

  /** Of all the writers that hold one version of a row, at most one ever succeeds. */
  lemma OneWriterWins(ops: seq<Op>, i: nat, j: nat)
    requires i < j < |ops| && ops[i].Update? && ops[j].Update?
    requires ops[i].id == ops[j].id && ops[i].version == ops[j].version
    requires Succeeds(After(ops, i), ops[i])
    ensures !Succeeds(After(ops, j), ops[j])
  {
    var p :| p in After(ops, i) && Hits(After(ops, i)[p], ops[i]);
    StepOnRow(After(ops, i), ops[i], p);
    RowHistory(ops, p, i + 1, j);
    IdsUnique(ops, j);
    assert forall q :: q in After(ops, j) && After(ops, j)[q].id == ops[j].id ==> q == p;
  }

  /** A step that puts the pair's grant in force: a first connect, or a re-connect. */
  predicate Connects(t: Table, op: Op, p: Pair) {
    (op.Create? || op.Upsert?) && op.pair == p && Succeeds(t, op)
  }

  predicate Disconnects(t: Table, op: Op, p: Pair) {
    op.Revoke? && p in t && t[p].id == op.id
  }

  ghost predicate ConnectsAt(ops: seq<Op>, p: Pair, i: nat)
    requires i < |ops|
  {
    Connects(After(ops, i), ops[i], p)
  }

  ghost predicate DisconnectsAt(ops: seq<Op>, p: Pair, i: nat)
    requires i < |ops|
  {
    Disconnects(After(ops, i), ops[i], p)
  }

  /** The pair connected at step `c` and has not been revoked since. */
  ghost predicate ConnectedSince(ops: seq<Op>, p: Pair, c: nat, n: nat)
    requires n <= |ops|
  {
    && c < n && ConnectsAt(ops, p, c)
    && forall d :: c < d < n ==> !DisconnectsAt(ops, p, d)
  }

  ghost predicate Connected(ops: seq<Op>, p: Pair, n: nat)
    requires n <= |ops|
  {
    exists c :: 0 <= c < n && ConnectedSince(ops, p, c, n)
  }

  predicate InForce(t: Table, p: Pair) {
    p in t && t[p].revokedAt.None?
  }

  lemma InForceNext(t: Table, op: Op, p: Pair)
    ensures InForce(Post(t, op), p) <==> Connects(t, op, p) || (InForce(t, p) && !Disconnects(t, op, p))
  {}

  lemma ConnectedNext(ops: seq<Op>, p: Pair, n: nat)
    requires n < |ops|
    ensures Connected(ops, p, n + 1) <==> ConnectsAt(ops, p, n) || (Connected(ops, p, n) && !DisconnectsAt(ops, p, n))
  {
    if ConnectsAt(ops, p, n) {
      assert ConnectedSince(ops, p, n, n + 1);
    } else if Connected(ops, p, n) && !DisconnectsAt(ops, p, n) {
      var c :| 0 <= c < n && ConnectedSince(ops, p, c, n);
      assert ConnectedSince(ops, p, c, n + 1);
    }
    if Connected(ops, p, n + 1) {
      var c :| 0 <= c < n + 1 && ConnectedSince(ops, p, c, n + 1);
      assert c < n ==> ConnectedSince(ops, p, c, n);
    }
  }

  /** A row is in force if and only if its pair has connected and was not revoked since. */
  lemma {:induction false} ActiveIff(ops: seq<Op>, p: Pair, n: nat)
    requires n <= |ops|
    ensures InForce(After(ops, n), p) <==> Connected(ops, p, n)
  {
    if n > 0 {
      InForceNext(After(ops, n - 1), ops[n - 1], p);
      ActiveIff(ops, p, n - 1);
      ConnectedNext(ops, p, n - 1);
    }
  }

  /** A step that stores a credential for the pair. */
  predicate Writes(t: Table, op: Op, p: Pair) {
    Connects(t, op, p) || (p in t && Hits(t[p], op))
  }

  ghost predicate WritesAt(ops: seq<Op>, p: Pair, i: nat)
    requires i < |ops|
  {
    Writes(After(ops, i), ops[i], p)
  }

  ghost predicate LastWrite(ops: seq<Op>, p: Pair, w: nat, n: nat)
    requires n <= |ops|
  {
    && w < n && WritesAt(ops, p, w)
    && forall d :: w < d < n ==> !WritesAt(ops, p, d)
  }

  lemma StepOnCredential(t: Table, op: Op, p: Pair)
    requires p in Post(t, op)
    ensures if Writes(t, op, p) then !op.Revoke? && Post(t, op)[p].credential == op.credential
            else p in t && Post(t, op)[p].credential == t[p].credential
  {}

  /** The credential of a row is the one that the last winning write brought. */
  lemma {:induction false} CredentialIsLastWritten(ops: seq<Op>, p: Pair, n: nat) returns (w: nat)
    requires n <= |ops| && p in After(ops, n)
    ensures LastWrite(ops, p, w, n) && !ops[w].Revoke? && After(ops, n)[p].credential == ops[w].credential
  {
    StepOnCredential(After(ops, n - 1), ops[n - 1], p);
    if WritesAt(ops, p, n - 1) {
      w := n - 1;
    } else {
      w := CredentialIsLastWritten(ops, p, n - 1);
    }
  }

  lemma {:induction false} AfterPrefix(ops: seq<Op>, op: Op, i: nat)
    requires i <= |ops|
    ensures After(ops + [op], i) == After(ops, i)
  {
    if i > 0 { AfterPrefix(ops, op, i - 1); }
  }

  // ---------------------------------------------------------------------------
  // The store

  class BrokerGrantStore {
    var rows: Table
    ghost var ops: seq<Op>

    /** The table is always the end of the run of operations so far. */
    ghost predicate Valid()
      reads this
    {
      rows == After(ops, |ops|)
    }

    constructor ()
      ensures Valid() && ops == []
    {
      rows := map[];
      ops := [];
    }

    ghost method Log(op: Op)
      requires rows == Post(After(ops, |ops|), op)
      modifies this`ops
      ensures Valid() && ops == old(ops) + [op]
    {
      AfterPrefix(ops, op, |ops|);
      ops := ops + [op];
    }

    /**
    The grant in force, if the pair has connected and was not revoked since: its version counts the
    winning writes and its credential is the one the last of them brought.
    */
    method Get(p: Pair) returns (r: Option<Row>)
      requires Valid()
      ensures r.Some? <==> Connected(ops, p, |ops|)
      ensures r.Some? ==> p in rows && r.value == rows[p]
      ensures r.Some? ==> r.value.version == 1 + BumpCount(ops, p, 0, |ops|)
      ensures r.Some? ==> exists w :: 0 <= w < |ops| && LastWrite(ops, p, w, |ops|) && r.value.credential == ops[w].credential
    {
      ActiveIff(ops, p, |ops|);
      r := None;
      if InForce(rows, p) {
        r := Some(rows[p]);
        VersionCountsBumps(ops, p, |ops|);
        ghost var w := CredentialIsLastWritten(ops, p, |ops|);
      }
    }

    method CreateGrant(p: Pair, id: string, credential: string) returns (ok: bool)
      requires Valid()
      modifies this
      ensures Valid() && ops == old(ops) + [Create(p, id, credential)]
      ensures ok == Succeeds(old(rows), Create(p, id, credential))
      ensures ok <==> p !in old(rows) && forall q :: q in old(rows) ==> old(rows)[q].id != id
      ensures rows == if ok then old(rows)[p := Row(id, credential, 1, None)] else old(rows)
    {
      ok := p !in rows && forall q :: q in rows ==> rows[q].id != id;
      if ok { rows := rows[p := Row(id, credential, 1, None)]; }
      Log(Create(p, id, credential));
    }

    /** Inserts, or writes into the row that holds the pair's slot, reviving it if it was revoked. */
    method UpsertGrant(p: Pair, id: string, credential: string) returns (ok: bool)
      requires Valid()
      modifies this
      ensures Valid() && ops == old(ops) + [Upsert(p, id, credential)]
      ensures ok == Succeeds(old(rows), Upsert(p, id, credential))
      ensures ok <==> p in old(rows) || forall q :: q in old(rows) ==> old(rows)[q].id != id
      ensures rows == if p in old(rows)
                      then old(rows)[p := Row(old(rows)[p].id, credential, old(rows)[p].version + 1, None)]
                      else if ok then old(rows)[p := Row(id, credential, 1, None)] else old(rows)
      ensures ok ==> Connected(ops, p, |ops|)
    {
      if p in rows {
        rows := rows[p := Row(rows[p].id, credential, rows[p].version + 1, None)];
        ok := true;
      } else {
        ok := forall q :: q in rows ==> rows[q].id != id;
        if ok { rows := rows[p := Row(id, credential, 1, None)]; }
      }
      Log(Upsert(p, id, credential));
      ActiveIff(ops, p, |ops|);
    }

    /** The optimistic lock: writes only where both the id and the version match. */
    method UpdateWithVersion(id: string, version: nat, credential: string) returns (ok: bool)
      requires Valid()
      modifies this
      ensures Valid() && ops == old(ops) + [Update(id, version, credential)]
      ensures ok == Succeeds(old(rows), Update(id, version, credential))
      ensures ok <==> exists p :: p in old(rows) && old(rows)[p].id == id && old(rows)[p].version == version
      ensures rows.Keys == old(rows).Keys
      ensures forall p :: p in rows ==>
                rows[p] == if old(rows)[p].id == id && old(rows)[p].version == version
                           then old(rows)[p].(credential := credential, version := version + 1) else old(rows)[p]
    {
      rows, ok := WriteMatching(rows, id, version, credential);
      Log(Update(id, version, credential));
    }

    /**
    Soft delete: no grant with this id is in force any more, at most one row is touched, and a row
    keeps its slot, id, credential and version.
    */
    method RevokeGrant(id: string, now: int)
      requires Valid()
      modifies this
      ensures Valid() && ops == old(ops) + [Revoke(id, now)]
      ensures rows.Keys == old(rows).Keys
      ensures forall p :: p in rows && rows[p].id == id ==> rows[p].revokedAt == Some(now) && !Connected(ops, p, |ops|)
      ensures forall p :: p in rows && rows[p].id != id ==> rows[p] == old(rows)[p]
      ensures forall p :: p in rows ==> rows[p].(revokedAt := None) == old(rows)[p].(revokedAt := None)
      ensures forall p, q :: p in rows && q in rows && rows[p] != old(rows)[p] && rows[q] != old(rows)[q] ==> p == q
    {
      IdsUnique(ops, |ops|);
      RevokeFrame(rows, id, now);
      rows := map p | p in rows :: if rows[p].id == id then rows[p].(revokedAt := Some(now)) else rows[p];
      Log(Revoke(id, now));
      forall p | p in rows && rows[p].id == id ensures !Connected(ops, p, |ops|) { ActiveIff(ops, p, |ops|); }
    }
  }

  /** A revocation changes nothing but the mark, and that of one row at most. */
  lemma RevokeFrame(t: Table, id: string, now: int)
    requires UniqueIds(t)
    ensures var t' := Post(t, Revoke(id, now));
            && t'.Keys == t.Keys
            && (forall p :: p in t' ==> t'[p].(revokedAt := None) == t[p].(revokedAt := None))
            && (forall p, q :: p in t' && q in t' && t'[p] != t[p] && t'[q] != t[q] ==> p == q)
  {}

  /** The update once the rows outside `remaining` have been looked at. */
  ghost function Partly(t: Table, op: Op, remaining: set<Pair>): Table {
    map p | p in t :: if p in remaining then t[p] else Post(t, op)[p]
  }

  lemma PartlyStep(t: Table, op: Op, remaining: set<Pair>, p: Pair)
    requires op.Update? && remaining <= t.Keys && p in remaining
    ensures Partly(t, op, remaining)[p] == t[p]
    ensures Partly(t, op, remaining - {p}) ==
            Partly(t, op, remaining)[p := if Hits(t[p], op)
                                          then t[p].(credential := op.credential, version := t[p].version + 1)
                                          else t[p]]
  {}

  method WriteMatching(t: Table, id: string, version: nat, credential: string) returns (t': Table, ok: bool)
    ensures t' == Post(t, Update(id, version, credential))
    ensures ok == Succeeds(t, Update(id, version, credential))
  {
    ghost var op := Update(id, version, credential);
    t', ok := t, false;
    var remaining := t.Keys;
    assert t' == Partly(t, op, remaining);
    while remaining != {}
      invariant remaining <= t.Keys
      invariant t' == Partly(t, op, remaining)
      invariant ok <==> exists p :: p in t && p !in remaining && Hits(t[p], op)
      decreases |remaining|
    {
      var p :| p in remaining;
      PartlyStep(t, op, remaining, p);
      remaining := remaining - {p};
      if t'[p].id == id && t'[p].version == version {
        t' := t'[p := t'[p].(credential := credential, version := version + 1)];
        ok := true;
      }
    }
  }
}
