/**
Listing issuances by any combination of user, client and resource: one indexed query, then an
in-place filter on the remaining dimensions, then truncation (api/admin/issuances.go:101-180,
cmd/authserver/admin_issuance.go:83-112, 242-266).  The store orders and cuts off by its own
comparison of timestamps.
*/
module IssuanceListing {
  import opened StoreTime

  datatype Row = Row(id: string, user: string, client: string, resource: string, issuedAt: nat)

  /** An empty string is a wildcard. */
  datatype Filter = Filter(user: string, client: string, resource: string)

  predicate Matches(r: Row, f: Filter) {
    && (f.user == "" || r.user == f.user)
    && (f.client == "" || r.client == f.client)
    && (f.resource == "" || r.resource == f.resource)
  }

  function Keep(rows: seq<Row>, f: Filter): (kept: seq<Row>)
    ensures |kept| <= |rows|
  {
    if rows == [] then []
    else
      var init := Keep(rows[..|rows| - 1], f);
      if Matches(rows[|rows| - 1], f) then init + [rows[|rows| - 1]] else init
  }

  /** The dimension that drives the query: user before client before resource. */
  function Driving(f: Filter): Filter {
    if f.user != "" then Filter(f.user, "", "")
    else if f.client != "" then Filter("", f.client, "")
    else Filter("", "", f.resource)
  }

  /** The dimensions left for the in-memory filter. */
  function Residual(f: Filter): Filter {
    if f.user != "" then f.(user := "")
    else if f.client != "" then f.(client := "")
    else f.(resource := "")
  }

  /** The store's descending order. */
  ghost predicate NewestFirst(b: Backend, rows: seq<Row>) {
    forall i, j :: 0 <= i < j < |rows| ==> !Below(b, rows[i].issuedAt, rows[j].issuedAt)
  }

  /** A row of the requested window, by the store's own comparison. */
  predicate Recent(b: Backend, since: nat, r: Row) {
    !Below(b, r.issuedAt, since)
  }

  /** How often a row of the table is wanted: its multiplicity if it is recent and matches, else not at all. */
  ghost function Wanted(b: Backend, db: multiset<Row>, since: nat, f: Filter, r: Row): nat {
    if Recent(b, since, r) && Matches(r, f) then db[r] else 0
  }

  /** A newest-first arrangement of exactly the rows of the table that are recent and match. */
  ghost predicate IsAnswer(b: Backend, db: multiset<Row>, since: nat, f: Filter, rows: seq<Row>) {
    NewestFirst(b, rows) && forall r :: multiset(rows)[r] == Wanted(b, db, since, f, r)
  }

  // ---------------------------------------------------------------------------
  // Filtering

  lemma {:induction false} KeepCounts(rows: seq<Row>, f: Filter, r: Row)
    ensures multiset(Keep(rows, f))[r] == if Matches(r, f) then multiset(rows)[r] else 0
  {
    if rows != [] {
      KeepCounts(rows[..|rows| - 1], f, r);
      assert rows == rows[..|rows| - 1] + [rows[|rows| - 1]];
    }
  }

  lemma {:induction false} KeepOrdered(b: Backend, rows: seq<Row>, f: Filter)
    requires NewestFirst(b, rows)
    ensures NewestFirst(b, Keep(rows, f))
    ensures forall k :: k in Keep(rows, f) ==> k in rows
  {
    if rows != [] {
      var init, last := rows[..|rows| - 1], rows[|rows| - 1];
      KeepOrdered(b, init, f);
      var kept := Keep(init, f);
      forall i | 0 <= i < |kept| ensures !Below(b, kept[i].issuedAt, last.issuedAt) {
        assert kept[i] in kept;
        var k :| 0 <= k < |init| && init[k] == kept[i];
        assert rows[k] == init[k];
      }
    }
  }

  /** Whatever part of the filter an index serves, filtering its answer by the rest answers the whole. */
  lemma AnyIndexAnswers(b: Backend, db: multiset<Row>, since: nat, f: Filter, driving: Filter, rest: Filter, got: seq<Row>)
    requires forall r :: Matches(r, f) <==> Matches(r, driving) && Matches(r, rest)
    requires IsAnswer(b, db, since, driving, got)
    ensures IsAnswer(b, db, since, f, Keep(got, rest))
  {
    KeepOrdered(b, got, rest);
    forall r ensures multiset(Keep(got, rest))[r] == Wanted(b, db, since, f, r) {
      KeepCounts(got, rest, r);
      assert multiset(got)[r] == Wanted(b, db, since, driving, r);
    }
  }

  /** Which rows an answer lists, on the columns: those of the table that agree with every filter that is set. */
  lemma ListedIff(b: Backend, db: multiset<Row>, since: nat, f: Filter, rows: seq<Row>, r: Row)
    requires IsAnswer(b, db, since, f, rows)
    ensures r in rows <==>
              && r in db && !Below(b, r.issuedAt, since)
              && (f.user != "" ==> r.user == f.user)
              && (f.client != "" ==> r.client == f.client)
              && (f.resource != "" ==> r.resource == f.resource)
    ensures r in rows ==> multiset(rows)[r] == db[r]
  {
    assert multiset(rows)[r] == Wanted(b, db, since, f, r);
    assert r in rows <==> r in multiset(rows);
  }

  lemma ResidualAnswers(b: Backend, db: multiset<Row>, since: nat, f: Filter, got: seq<Row>)
    requires IsAnswer(b, db, since, Driving(f), got)
    ensures IsAnswer(b, db, since, f, Keep(got, Residual(f)))
  {
    AnyIndexAnswers(b, db, since, f, Driving(f), Residual(f), got);
  }

  // ---------------------------------------------------------------------------
  // When the answer is determined

  function Take(rows: seq<Row>, limit: nat): seq<Row> {
    if |rows| > limit then rows[..limit] else rows
  }

  /** A row among the first `limit` that the store cannot tell in time from a different later row. */
  ghost predicate TieAt(b: Backend, a: seq<Row>, limit: nat, i: nat, j: nat) {
    i < limit && i < j < |a| && a[i] != a[j] && Tied(b, a[i].issuedAt, a[j].issuedAt)
  }

  lemma RestCounts(a: seq<Row>, c: seq<Row>, i: nat)
    requires i <= |a| && i <= |c| && multiset(a) == multiset(c) && a[..i] == c[..i]
    ensures multiset(a[i..]) == multiset(c[i..])
  {
    assert a == a[..i] + a[i..] && c == c[..i] + c[i..];
    assert multiset(a[i..]) == multiset(a) - multiset(a[..i]);
    assert multiset(c[i..]) == multiset(c) - multiset(c[..i]);
  }

  /** Two arrangements that agree so far hold, at the next place, the same row or tied ones. */
  lemma NextTied(b: Backend, a: seq<Row>, c: seq<Row>, i: nat) returns (j: nat)
    requires NewestFirst(b, a) && NewestFirst(b, c) && multiset(a) == multiset(c)
    requires i < |a| == |c| && a[..i] == c[..i]
    ensures i <= j < |a| && a[j] == c[i] && (j == i || Tied(b, a[i].issuedAt, a[j].issuedAt))
  {
    RestCounts(a, c, i);
    assert c[i..][0] in multiset(c[i..]) && a[i..][0] in multiset(a[i..]);
    assert c[i] in a[i..] && a[i] in c[i..];
    var x :| 0 <= x < |a| - i && a[i..][x] == c[i];
    var y :| 0 <= y < |c| - i && c[i..][y] == a[i];
    j := i + x;
    assert a[j] == c[i] && c[i + y] == a[i];
  }

  lemma {:induction false} NoTieSamePrefix(b: Backend, a: seq<Row>, c: seq<Row>, limit: nat, n: nat)
    requires NewestFirst(b, a) && NewestFirst(b, c) && multiset(a) == multiset(c) && |a| == |c|
    requires forall i, j :: !TieAt(b, a, limit, i, j)
    requires n <= |a| && n <= limit
    ensures a[..n] == c[..n]
  {
    if n > 0 {
      NoTieSamePrefix(b, a, c, limit, n - 1);
      var j := NextTied(b, a, c, n - 1);
      assert !TieAt(b, a, limit, n - 1, j);
      assert a[..n] == a[..n - 1] + [a[n - 1]] && c[..n] == c[..n - 1] + [c[n - 1]];
    }
  }

  function Swapped(a: seq<Row>, i: nat, j: nat): (c: seq<Row>)
    requires i < j < |a|
    ensures |c| == |a| && c[i] == a[j] && c[j] == a[i]
    ensures forall k :: 0 <= k < |a| && k != i && k != j ==> c[k] == a[k]
    ensures multiset(c) == multiset(a)
  {
    a[i := a[j]][j := a[i]]
  }

  /** Swapping tied rows keeps the store's order. */
  lemma TieSwaps(b: Backend, a: seq<Row>, i: nat, j: nat)
    requires NewestFirst(b, a) && i < j < |a| && Tied(b, a[i].issuedAt, a[j].issuedAt)
    ensures NewestFirst(b, Swapped(a, i, j))
  {
    var c := Swapped(a, i, j);
    forall x, y | 0 <= x < y < |c| ensures !Below(b, c[x].issuedAt, c[y].issuedAt) {
      TiedAlike(b, a[i].issuedAt, a[j].issuedAt, a[y].issuedAt);
      TiedAlike(b, a[i].issuedAt, a[j].issuedAt, a[x].issuedAt);
    }
  }

  /** Every answer to the filter begins with the same `limit` rows. */
  ghost predicate Determined(b: Backend, db: multiset<Row>, since: nat, f: Filter, a: seq<Row>, limit: nat) {
    forall c :: IsAnswer(b, db, since, f, c) ==> Take(c, limit) == Take(a, limit)
  }

  lemma TieUndetermined(b: Backend, db: multiset<Row>, since: nat, f: Filter, a: seq<Row>, limit: nat, i: nat, j: nat)
    requires IsAnswer(b, db, since, f, a) && TieAt(b, a, limit, i, j)
    ensures !Determined(b, db, since, f, a, limit)
  {
    var c := Swapped(a, i, j);
    TieSwaps(b, a, i, j);
    assert IsAnswer(b, db, since, f, c);
    assert Take(c, limit)[i] == a[j] && Take(a, limit)[i] == a[i];
  }

  /**
  The first `limit` rows are the same for every index, every query plan and both front ends if and
  only if the store can tell each of them in time from every different row that follows.
  */
  lemma ListingDetermined(b: Backend, db: multiset<Row>, since: nat, f: Filter, a: seq<Row>, limit: nat)
    requires IsAnswer(b, db, since, f, a)
    ensures Determined(b, db, since, f, a, limit) <==> forall i, j :: !TieAt(b, a, limit, i, j)
  {
    if i: nat, j: nat :| TieAt(b, a, limit, i, j) {
      TieUndetermined(b, db, since, f, a, limit, i, j);
    } else {
      forall c | IsAnswer(b, db, since, f, c) ensures Take(c, limit) == Take(a, limit) {
        SameCounts(b, db, since, f, a, c);
        NoTieSamePrefix(b, a, c, limit, if limit <= |a| then limit else |a|);
      }
    }
  }

  lemma SameCounts(b: Backend, db: multiset<Row>, since: nat, f: Filter, a: seq<Row>, c: seq<Row>)
    requires IsAnswer(b, db, since, f, a) && IsAnswer(b, db, since, f, c)
    ensures multiset(a) == multiset(c) && |a| == |c|
  {
    assert multiset(a) == multiset(c);
    assert |a| == |multiset(a)| && |c| == |multiset(c)|;
  }

  // ---------------------------------------------------------------------------
  // In place

  /**
  Compacts the matching rows to the front of the same array.  The write position never passes
  the read position, so no row is overwritten before it has been read.
  */
  method FilterInPlace(a: array<Row>, f: Filter) returns (n: nat)
    modifies a
    ensures n <= a.Length
    ensures a[..n] == Keep(old(a[..]), f)
    ensures a[n..] == old(a[n..])
  {
    n := 0;
    for i := 0 to a.Length
      invariant n <= i
      invariant a[..n] == Keep(old(a[..i]), f)
      invariant a[n..] == old(a[n..])
    {
      var r := a[i];
      assert old(a[..i + 1]) == old(a[..i]) + [r];
      if Matches(r, f) {
        a[n] := r;
        n := n + 1;
        assert a[..n] == a[..n - 1] + [r];
      }
    }
    assert old(a[..a.Length]) == old(a[..]);
  }

  /** The list command: `got` is what the driving index returned. */
  method List(ghost b: Backend, ghost db: multiset<Row>, ghost since: nat, f: Filter, got: array<Row>, limit: nat)
    returns (rows: seq<Row>)
    requires IsAnswer(b, db, since, Driving(f), got[..])
    modifies got
    ensures exists full :: IsAnswer(b, db, since, f, full) && rows == if |full| <= limit then full else full[..limit]
  {
    ResidualAnswers(b, db, since, f, got[..]);
    var n := FilterInPlace(got, Residual(f));
    rows := got[..n];
    ghost var full := rows;
    if |rows| > limit {
      rows := rows[..limit];
    }
    assert rows == Take(full, limit);
  }

  // ---------------------------------------------------------------------------
  // Newest first, against the clock

  /**
  The store never finds a row that the limit cuts off above one that it keeps; so by the clock it is
  newer only where the store blurs the two: never for exact timestamps, within one microsecond on
  Postgres, and on SQLite within one second with the kept fraction a proper prefix of the other.
  */
  lemma TruncationKeepsNewest(b: Backend, db: multiset<Row>, since: nat, f: Filter, full: seq<Row>, limit: nat, kept: Row, left: Row)
    requires IsAnswer(b, db, since, f, full) && kept in Take(full, limit)
    requires Wanted(b, db, since, f, left) > multiset(Take(full, limit))[left]
    ensures !Below(b, kept.issuedAt, left.issuedAt)
    ensures Sound(b) && Holds(b, left.issuedAt) && kept.issuedAt < left.issuedAt ==> Blurred(b, kept.issuedAt, left.issuedAt)
  {
    assert multiset(full)[left] == Wanted(b, db, since, f, left);
    if |full| > limit {
      assert full == full[..limit] + full[limit..];
      assert left in full[limit..];
    }
    if Sound(b) && Holds(b, left.issuedAt) && kept.issuedAt < left.issuedAt {
      StoreOrderExact(b, kept.issuedAt, left.issuedAt);
    }
  }

  /** And every blurred pair is cut the wrong way round by some answer: the older row first. */
  lemma BlurredPairInverts(b: Backend, since: nat, f: Filter, older: Row, newer: Row)
    requires Sound(b) && Holds(b, newer.issuedAt) && older.issuedAt < newer.issuedAt
    requires Matches(older, f) && Matches(newer, f) && Recent(b, since, older) && Recent(b, since, newer)
    ensures IsAnswer(b, multiset{older, newer}, since, f, [older, newer]) <==> Blurred(b, older.issuedAt, newer.issuedAt)
  {
    StoreOrderExact(b, older.issuedAt, newer.issuedAt);
    var rows := [older, newer];
    assert multiset(rows) == multiset{older, newer};
    assert NewestFirst(b, rows) ==> !Below(b, rows[0].issuedAt, rows[1].issuedAt);
  }

  /**
  The window against the clock: a row issued at or after `since` is left out only on SQLite, when
  the text of `since` begins that of the row; one issued before it is let in only where they blur.
  */
  lemma WindowExact(b: Backend, since: nat, r: Row)
    requires Sound(b) && Holds(b, since) && Holds(b, r.issuedAt)
    ensures since <= r.issuedAt ==> (!Recent(b, since, r) <==> b.Sqlite? && PrefixPair(since, r.issuedAt))
    ensures r.issuedAt < since ==> (Recent(b, since, r) <==> Blurred(b, r.issuedAt, since))
  {
    if since < r.issuedAt { StoreOrderExact(b, since, r.issuedAt); }
    if r.issuedAt < since { StoreOrderExact(b, r.issuedAt, since); }
    if since == r.issuedAt { TiedExact(b, since, since); }
  }
}
