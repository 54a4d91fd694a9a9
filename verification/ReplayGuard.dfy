/**
DPoP proof checking and replay protection at the resource server
(api/shared/jwt_middleware.go:344-484, internal/crypto/dpop.go:94-121,
internal/adapters/postgres/dpop_nonce.go, internal/adapters/sqlite/dpop_nonce.go).  Times are
nanoseconds since the Unix epoch; a proof's iat is in whole seconds.  A request reads the clock
when it checks freshness and again to set the expiry of the proof id, and inserts the id after that,
so it carries three instants.
*/
module ReplayGuard {
  import opened Durations
  import opened Options
  import opened StoreTime

  const MAX_JTI_LEN: nat := 255

  /** `sound` is the verdict on everything but age: signature, key, method, URL, token hash. */
  datatype Proof = Proof(jti: string, iat: int, jkt: string, sound: bool)

  datatype Presented = Presented(bound: bool, tokenJkt: string, dpopScheme: bool, proof: Option<Proof>)

  datatype Code = InvalidToken | InvalidProof
  datatype Verdict = Pass | Reject(code: Code)

  /** Consumed proof ids and when they may be forgotten. */
  type Store = map<string, nat>

  function Abs(x: int): int { if x < 0 then -x else x }

  predicate Fresh(lifetime: nat, p: Proof, now: nat) {
    p.iat != 0 && Abs(now - p.iat * SECOND) <= lifetime
  }

  /** Enforcement: the token says so (cnf.jkt) or the request says so (the DPoP scheme). */
  predicate Enforced(r: Presented) {
    r.bound || r.dpopScheme
  }

  /** Every check that precedes the store, in order. */
  function Checks(lifetime: nat, r: Presented, now: nat): Verdict {
    if !r.dpopScheme then Reject(InvalidToken)
    else if r.proof.None? then Reject(InvalidProof)
    else
      var p := r.proof.value;
      if !p.sound || p.jti == "" || !Fresh(lifetime, p, now) then Reject(InvalidProof)
      else if r.bound && p.jkt != r.tokenJkt then Reject(InvalidProof)
      else if |p.jti| > MAX_JTI_LEN then Reject(InvalidProof)
      else Pass
  }

  datatype Event =
    | Request(r: Presented, checkedAt: nat, stampedAt: nat, at: nat)
    | Foreign(jti: string, expiry: nat, at: nat)      // another endpoint using the same store
    | Purge(at: nat)

  /** Proof lifetime, retention of a consumed id, and the longest gap between check and insert. */
  datatype Policy = Policy(lifetime: nat, retention: nat, delay: nat)

  /** The request gets through, and its proof is consumed by doing so. */
  predicate Spends(p: Policy, s: Store, e: Event) {
    && e.Request? && Enforced(e.r)
    && Checks(p.lifetime, e.r, e.checkedAt).Pass?
    && e.r.proof.value.jti !in s
  }

  /** The purge deletes what the store itself finds below the current instant. */
  function Post(b: Backend, p: Policy, s: Store, e: Event): Store {
    match e
    case Request(r, _, stampedAt, _) => if Spends(p, s, e) then s[r.proof.value.jti := stampedAt + p.retention] else s
    case Foreign(jti, expiry, _) => if jti in s then s else s[jti := expiry]
    case Purge(at) => Unexpired(b, s, at)
  }

  function Unexpired(b: Backend, s: Store, at: nat): Store {
    map jti | jti in s && !Below(b, s[jti], at) :: s[jti]
  }

  ghost function After(b: Backend, p: Policy, es: seq<Event>, i: nat): Store
    requires i <= |es|
  {
    if i == 0 then map[] else Post(b, p, After(b, p, es, i - 1), es[i - 1])
  }

  ghost predicate Accepted(b: Backend, p: Policy, es: seq<Event>, i: nat)
    requires i < |es|
  {
    Spends(p, After(b, p, es, i), es[i])
  }

  /** Check, stamp and insert in that order within `delay`; the store can write every expiry. */
  predicate Timely(b: Backend, p: Policy, e: Event) {
    && (e.Request? ==> e.checkedAt <= e.stampedAt <= e.at <= e.checkedAt + p.delay)
    && Holds(b, e.at + p.retention)
  }

  /** Store operations in the order they happen. */
  ghost predicate Run(b: Backend, p: Policy, es: seq<Event>) {
    && (forall i, j :: 0 <= i <= j < |es| ==> es[i].at <= es[j].at)
    && (forall i :: 0 <= i < |es| ==> Timely(b, p, es[i]))
  }

  ghost predicate SameProof(a: Event, b: Event) {
    && a.Request? && b.Request? && a.r.proof.Some? && b.r.proof.Some?
    && a.r.proof.value.jti == b.r.proof.value.jti && a.r.proof.value.iat == b.r.proof.value.iat
  }

  /** No run accepts one proof twice. */
  ghost predicate ReplaySafe(b: Backend, p: Policy) {
    forall es, i, j :: Run(b, p, es) && 0 <= i < j < |es| && Accepted(b, p, es, i) && Accepted(b, p, es, j)
                       ==> !SameProof(es[i], es[j])
  }

  // ---------------------------------------------------------------------------
  // Any store

  /** A consumed id stays, under its own expiry, until a purge finds that expiry below its clock. */
  lemma {:induction false} Retained(b: Backend, p: Policy, es: seq<Event>, i: nat, m: nat)
    requires Run(b, p, es) && i < m <= |es| && Accepted(b, p, es, i)
    ensures var jti, expiry := es[i].r.proof.value.jti, es[i].stampedAt + p.retention;
            || (jti in After(b, p, es, m) && After(b, p, es, m)[jti] == expiry)
            || exists q :: i < q < m && es[q].Purge? && Below(b, expiry, es[q].at)
    decreases m
  {
    if i + 1 < m { Retained(b, p, es, i, m - 1); }
  }

  /** An id in the store was put there by a request that passed every check, or by another endpoint. */
  lemma {:induction false} StoredWasSpent(b: Backend, p: Policy, es: seq<Event>, m: nat, jti: string) returns (i: nat)
    requires m <= |es| && jti in After(b, p, es, m)
    ensures i < m
    ensures Accepted(b, p, es, i) || es[i].Foreign?
    ensures es[i].Foreign? ==> es[i].jti == jti && es[i].expiry == After(b, p, es, m)[jti]
    ensures es[i].Request? ==>
              var proof := es[i].r.proof.value;
              && proof.jti == jti && 0 < |jti| <= MAX_JTI_LEN && proof.sound
              && es[i].stampedAt + p.retention == After(b, p, es, m)[jti]
              && (es[i].r.bound ==> proof.jkt == es[i].r.tokenJkt)
  {
    var s, e := After(b, p, es, m - 1), es[m - 1];
    if jti in s {
      i := StoredWasSpent(b, p, es, m - 1, jti);
    } else {
      i := m - 1;
    }
  }

  /**
  A proof issued at `iat` can be stamped at `first`, dropped by a purge at `purge`, and have been
  fresh recently enough to be inserted again at that instant.
  */
  predicate Overlap(b: Backend, p: Policy, iat: int, first: nat, purge: nat) {
    && iat != 0
    && iat * SECOND - p.lifetime <= first <= purge <= iat * SECOND + p.lifetime + p.delay
    && Holds(b, purge + p.retention)
    && Below(b, first + p.retention, purge)
  }

  /** When an accepted proof was stamped and inserted, by its own issue time. */
  lemma AcceptedWindow(b: Backend, p: Policy, es: seq<Event>, i: nat)
    requires Run(b, p, es) && i < |es| && Accepted(b, p, es, i)
    ensures var iat := es[i].r.proof.value.iat;
            && iat != 0 && iat * SECOND - p.lifetime <= es[i].stampedAt <= es[i].at
            && es[i].at <= iat * SECOND + p.lifetime + p.delay
    ensures Holds(b, es[i].at + p.retention)
  {
    assert Timely(b, p, es[i]);
  }

  lemma ReplayOverlaps(b: Backend, p: Policy, es: seq<Event>, i: nat, j: nat) returns (q: nat)
    requires Run(b, p, es) && i < j < |es| && Accepted(b, p, es, i) && Accepted(b, p, es, j)
    requires SameProof(es[i], es[j])
    ensures i < q < j && Overlap(b, p, es[i].r.proof.value.iat, es[i].stampedAt, es[q].at)
  {
    Retained(b, p, es, i, j);
    q :| i < q < j && es[q].Purge? && Below(b, es[i].stampedAt + p.retention, es[q].at);
    assert es[i].at <= es[q].at <= es[j].at;
    AcceptedWindow(b, p, es, i);
    AcceptedWindow(b, p, es, j);
  }

  function Earlier(a: int, b: int): int { if a <= b then a else b }

  /** Accepted at `first`, forgotten at `purge`, and accepted again. */
  function Replay(p: Policy, proof: Proof, first: nat, purge: nat): seq<Event>
    requires 0 <= proof.iat * SECOND + p.lifetime
  {
    var last := proof.iat * SECOND + p.lifetime;
    var r := Presented(false, "", true, Some(proof));
    [ Request(r, Earlier(first, last), first, first), Purge(purge), Request(r, Earlier(purge, last), purge, purge) ]
  }

  /** A proof that every check but its age lets through. */
  predicate Sendable(proof: Proof) {
    proof.sound && 0 < |proof.jti| <= MAX_JTI_LEN
  }

  lemma OverlapReplays(b: Backend, p: Policy, proof: Proof, first: nat, purge: nat)
    requires Overlap(b, p, proof.iat, first, purge) && Sendable(proof) && 0 <= proof.iat * SECOND + p.lifetime
    ensures var es := Replay(p, proof, first, purge);
            Run(b, p, es) && Accepted(b, p, es, 0) && Accepted(b, p, es, 2) && SameProof(es[0], es[2])
  {
    var es := Replay(p, proof, first, purge);
    FreshAt(p, proof, first);
    FreshAt(p, proof, purge);
    assert After(b, p, es, 0) == map[];
    assert After(b, p, es, 1) == map[proof.jti := first + p.retention];
    PurgeEmpties(b, p, proof.jti, first + p.retention, purge);
    assert After(b, p, es, 2) == map[];
  }

  lemma FreshAt(p: Policy, proof: Proof, at: nat)
    requires Sendable(proof) && proof.iat != 0 && 0 <= proof.iat * SECOND + p.lifetime
    requires proof.iat * SECOND - p.lifetime <= at
    ensures var last := proof.iat * SECOND + p.lifetime;
            Spends(p, map[], Request(Presented(false, "", true, Some(proof)), Earlier(at, last), at, at))
  {}

  lemma PurgeEmpties(b: Backend, p: Policy, jti: string, expiry: nat, at: nat)
    requires Below(b, expiry, at)
    ensures Post(b, p, map[jti := expiry], Purge(at)) == map[]
  {}

  // ---------------------------------------------------------------------------
  // How long is long enough

  /** The retention each store needs, as a function of the configuration alone. */
  predicate Enough(b: Backend, p: Policy) {
    match b
    case Exact => p.retention >= 2 * p.lifetime + p.delay
    case Postgres => (p.retention - p.lifetime) / MICROSECOND >= (p.lifetime + p.delay) / MICROSECOND
    case Sqlite(_) => (p.retention - p.lifetime) / SECOND > (p.lifetime + p.delay) / SECOND
  }

  /** The last instant of a proof's window and the first expiry of its id, in the store's units. */
  lemma WindowUnits(p: Policy, iat: int, first: nat, purge: nat)
    requires iat * SECOND - p.lifetime <= first && purge <= iat * SECOND + p.lifetime + p.delay
    ensures (first + p.retention) / SECOND >= iat + (p.retention - p.lifetime) / SECOND
    ensures purge / SECOND <= iat + (p.lifetime + p.delay) / SECOND
    ensures (first + p.retention) / MICROSECOND >= iat * 1_000_000 + (p.retention - p.lifetime) / MICROSECOND
    ensures purge / MICROSECOND <= iat * 1_000_000 + (p.lifetime + p.delay) / MICROSECOND
  {
    WholeSecondsShift(iat, p.retention - p.lifetime);
    WholeSecondsShift(iat, p.lifetime + p.delay);
    RoundingMonotone(iat * SECOND + (p.retention - p.lifetime), first + p.retention);
    RoundingMonotone(purge, iat * SECOND + (p.lifetime + p.delay));
  }

  lemma EnoughNeverOverlaps(b: Backend, p: Policy, iat: int, first: nat, purge: nat)
    requires Sound(b) && Enough(b, p)
    ensures !Overlap(b, p, iat, first, purge)
  {
    if Overlap(b, p, iat, first, purge) {
      match b
      case Exact =>
      case Postgres => WindowUnits(p, iat, first, purge);
      case Sqlite(_) =>
        WindowUnits(p, iat, first, purge);
        HoldsEarlier(b, first + p.retention, purge + p.retention);
        HoldsEarlier(b, purge, purge + p.retention);
        StoreOrderWithinSecond(b, first + p.retention, purge);
    }
  }

  /** With enough retention no run accepts one proof twice. */
  lemma RetentionEnough(b: Backend, p: Policy, es: seq<Event>, i: nat, j: nat)
    requires Sound(b) && Enough(b, p)
    requires Run(b, p, es) && i < j < |es| && Accepted(b, p, es, i) && Accepted(b, p, es, j)
    ensures !SameProof(es[i], es[j])
  {
    if SameProof(es[i], es[j]) {
      var q := ReplayOverlaps(b, p, es, i, j);
      EnoughNeverOverlaps(b, p, es[i].r.proof.value.iat, es[i].stampedAt, es[q].at);
    }
  }

  /** The proof's whole window lies on the clock and inside what the store can write. */
  predicate OnTheClock(b: Backend, p: Policy, iat: int) {
    iat > 0 && iat * SECOND >= p.lifetime && Holds(b, iat * SECOND + p.lifetime + p.delay + p.retention)
  }

  /** The expiry lies in an earlier second than the end of the window. */
  lemma EarlierSecondOverlaps(b: Backend, p: Policy, iat: int)
    requires b.Sqlite? && Sound(b) && OnTheClock(b, p, iat)
    requires (p.retention - p.lifetime) / SECOND < (p.lifetime + p.delay) / SECOND
    ensures Overlap(b, p, iat, iat * SECOND - p.lifetime, iat * SECOND + p.lifetime + p.delay)
  {
    WholeSecondsShift(iat, p.retention - p.lifetime);
    WholeSecondsShift(iat, p.lifetime + p.delay);
    EarlierSecondBelow(b, iat * SECOND - p.lifetime + p.retention, iat * SECOND + p.lifetime + p.delay);
  }

  /**
  When the expiry lies in the second in which the window ends, the purge runs as that second
  begins, and the first use is one nanosecond late if its expiry would otherwise be a whole second.
  */
  lemma SameSecondInstants(p: Policy, iat: int) returns (first: nat, s: nat)
    requires p.lifetime > 0 && iat * SECOND >= p.lifetime
    requires (p.retention - p.lifetime) / SECOND == (p.lifetime + p.delay) / SECOND
    ensures iat * SECOND - p.lifetime <= first <= s * SECOND <= iat * SECOND + p.lifetime + p.delay
    ensures s * SECOND < first + p.retention < s * SECOND + SECOND
  {
    var end := (p.lifetime + p.delay) / SECOND;
    var past := (p.retention - p.lifetime) % SECOND;
    var n := if past == 0 then 1 else 0;
    first, s := iat * SECOND - p.lifetime + n, iat + end;
    assert 0 <= end * SECOND <= p.lifetime + p.delay;
  }

  lemma SameSecondOverlaps(b: Backend, p: Policy, iat: int) returns (first: nat, purge: nat)
    requires b.Sqlite? && Sound(b) && p.lifetime > 0 && OnTheClock(b, p, iat)
    requires (p.retention - p.lifetime) / SECOND == (p.lifetime + p.delay) / SECOND
    ensures Overlap(b, p, iat, first, purge)
  {
    var s;
    first, s := SameSecondInstants(p, iat);
    purge := s * SECOND;
    BelowOwnSecond(b, first + p.retention, s);
    HoldsEarlier(b, purge + p.retention, iat * SECOND + p.lifetime + p.delay + p.retention);
  }

  lemma TextOverlaps(b: Backend, p: Policy, iat: int) returns (first: nat, purge: nat)
    requires b.Sqlite? && Sound(b) && !Enough(b, p) && p.lifetime > 0 && OnTheClock(b, p, iat)
    ensures Overlap(b, p, iat, first, purge)
  {
    if (p.retention - p.lifetime) / SECOND < (p.lifetime + p.delay) / SECOND {
      EarlierSecondOverlaps(b, p, iat);
      first, purge := iat * SECOND - p.lifetime, iat * SECOND + p.lifetime + p.delay;
    } else {
      first, purge := SameSecondOverlaps(b, p, iat);
    }
  }

  /** With less than enough, every proof can be spent twice. */
  lemma RetentionNeeded(b: Backend, p: Policy, proof: Proof) returns (es: seq<Event>)
    requires Sound(b) && !Enough(b, p) && (b.Sqlite? ==> p.lifetime > 0)
    requires Sendable(proof) && OnTheClock(b, p, proof.iat)
    ensures Run(b, p, es) && |es| == 3 && es[0].Request? && es[0].r.proof == Some(proof)
    ensures Accepted(b, p, es, 0) && Accepted(b, p, es, 2) && SameProof(es[0], es[2])
  {
    var first, purge := proof.iat * SECOND - p.lifetime, proof.iat * SECOND + p.lifetime + p.delay;
    if b.Sqlite? {
      first, purge := TextOverlaps(b, p, proof.iat);
    } else if b.Postgres? {
      WholeSecondsShift(proof.iat, p.retention - p.lifetime);
      WholeSecondsShift(proof.iat, p.lifetime + p.delay);
    }
    OverlapReplays(b, p, proof, first, purge);
    es := Replay(p, proof, first, purge);
  }

  /** Some proof's window fits the store's calendar. */
  predicate WindowFits(b: Backend, p: Policy) {
    Holds(b, SECOND + 2 * p.lifetime + p.delay + p.retention)
  }

  /**
  The exact retention: a proof is accepted at most once in every run if and only if its id is kept
  for twice the lifetime plus the gap between check and insert, counted in the store's own units:
  whole microseconds on Postgres, and on SQLite whole seconds with one to spare.
  */
  lemma RetentionExact(b: Backend, p: Policy)
    requires Sound(b) && (b.Sqlite? ==> p.lifetime > 0) && WindowFits(b, p)
    ensures ReplaySafe(b, p) <==> Enough(b, p)
  {
    if Enough(b, p) {
      forall es, i, j | Run(b, p, es) && 0 <= i < j < |es| && Accepted(b, p, es, i) && Accepted(b, p, es, j)
        ensures !SameProof(es[i], es[j])
      {
        RetentionEnough(b, p, es, i, j);
      }
    } else {
      var iat := p.lifetime / SECOND + 1;
      var es := RetentionNeeded(b, p, Proof("x", iat, "", true));
      assert !ReplaySafe(b, p);
    }
  }

  /** The middleware's own choice: retention of two lifetimes. */
  function Shipped(lifetime: nat, delay: nat): Policy {
    Policy(lifetime, 2 * lifetime, delay)
  }

  /** Two lifetimes are enough on an exact store only when check and insert are one instant. */
  lemma ShippedSafeIffAtomic(lifetime: nat, delay: nat)
    ensures ReplaySafe(Exact, Shipped(lifetime, delay)) <==> delay == 0
  {
    RetentionExact(Exact, Shipped(lifetime, delay));
  }

  /** On Postgres, only when the gap never carries the end of the window into the next microsecond. */
  lemma ShippedOnPostgres(lifetime: nat, delay: nat)
    ensures ReplaySafe(Postgres, Shipped(lifetime, delay)) <==> delay < MICROSECOND - lifetime % MICROSECOND
  {
    RetentionExact(Postgres, Shipped(lifetime, delay));
    ShippedMicroseconds(lifetime, delay);
  }

  lemma ShippedMicroseconds(lifetime: nat, delay: nat)
    ensures Enough(Postgres, Shipped(lifetime, delay)) <==> delay < MICROSECOND - lifetime % MICROSECOND
  {
    NoCarry(lifetime, delay);
    assert 2 * lifetime - lifetime == lifetime;
  }

  /** On SQLite, never. */
  lemma ShippedUnsafeOnSqlite(b: Backend, lifetime: nat, delay: nat)
    requires b.Sqlite? && Sound(b) && lifetime > 0 && WindowFits(b, Shipped(lifetime, delay))
    ensures !ReplaySafe(b, Shipped(lifetime, delay))
  {
    RetentionExact(b, Shipped(lifetime, delay));
  }

  /** One more second, and the gap, would be enough on every store. */
  lemma ExtraSecondSuffices(b: Backend, lifetime: nat, delay: nat)
    requires Sound(b)
    ensures ReplaySafe(b, Policy(lifetime, 2 * lifetime + delay + SECOND, delay))
  {
    var p := Policy(lifetime, 2 * lifetime + delay + SECOND, delay);
    assert (p.retention - p.lifetime) / SECOND == (p.lifetime + p.delay) / SECOND + 1;
    forall es, i, j | Run(b, p, es) && 0 <= i < j < |es| && Accepted(b, p, es, i) && Accepted(b, p, es, j)
      ensures !SameProof(es[i], es[j])
    {
      RetentionEnough(b, p, es, i, j);
    }
  }

  // ---------------------------------------------------------------------------
  // The guard

  const DEFAULT_LIFETIME: nat := 60 * SECOND

  lemma {:induction false} AfterPrefix(b: Backend, p: Policy, es: seq<Event>, e: Event, i: nat)
    requires i <= |es|
    ensures After(b, p, es + [e], i) == After(b, p, es, i)
  {
    if i > 0 { AfterPrefix(b, p, es, e, i - 1); }
  }

  lemma RunSnoc(b: Backend, p: Policy, es: seq<Event>, e: Event)
    requires Run(b, p, es) && Timely(b, p, e) && (|es| > 0 ==> es[|es| - 1].at <= e.at)
    ensures Run(b, p, es + [e])
    ensures After(b, p, es + [e], |es| + 1) == Post(b, p, After(b, p, es, |es|), e)
    ensures forall i :: 0 <= i < |es| ==> (Accepted(b, p, es + [e], i) <==> Accepted(b, p, es, i))
    ensures Accepted(b, p, es + [e], |es|) <==> Spends(p, After(b, p, es, |es|), e)
  {
    AfterPrefix(b, p, es, e, |es|);
    forall i | 0 <= i < |es| ensures Accepted(b, p, es + [e], i) <==> Accepted(b, p, es, i) {
      AfterPrefix(b, p, es, e, i);
    }
  }

  /** The store still holds an id of this expiry at `now`, whatever purges ran until then. */
  predicate SurelyKept(b: Backend, expiry: nat, now: nat) {
    match b
    case Exact => now <= expiry
    case Postgres => now / MICROSECOND <= expiry / MICROSECOND
    case Sqlite(_) => now / SECOND < expiry / SECOND
  }

  /** The id that event `i` spent is in the store, unless its retention may be over at `now`. */
  ghost predicate HeldAt(b: Backend, p: Policy, es: seq<Event>, i: nat, now: nat, s: Store)
    requires i < |es|
  {
    Accepted(b, p, es, i) && SurelyKept(b, es[i].stampedAt + p.retention, now) ==> es[i].r.proof.value.jti in s
  }

  /** No purge up to `now` drops an id that is surely kept then. */
  lemma NotDropped(b: Backend, expiry: nat, at: nat, now: nat)
    requires Sound(b) && Holds(b, expiry) && Holds(b, at) && at <= now && SurelyKept(b, expiry, now)
    ensures !Below(b, expiry, at)
  {
    RoundingMonotone(at, now);
    if b.Sqlite? && Below(b, expiry, at) { StoreOrderWithinSecond(b, expiry, at); }
  }

  /** In every run an id that was spent is held until its retention may be over. */
  lemma HeldUntilExpiry(b: Backend, p: Policy, es: seq<Event>, i: nat, now: nat)
    requires Sound(b) && Run(b, p, es) && i < |es| && es[|es| - 1].at <= now
    ensures HeldAt(b, p, es, i, now, After(b, p, es, |es|))
  {
    if Accepted(b, p, es, i) && SurelyKept(b, es[i].stampedAt + p.retention, now) {
      Retained(b, p, es, i, |es|);
      var expiry := es[i].stampedAt + p.retention;
      forall q | i < q < |es| && es[q].Purge? ensures !Below(b, expiry, es[q].at) {
        assert es[q].at <= es[|es| - 1].at;
        assert Timely(b, p, es[q]) && Timely(b, p, es[i]);
        HoldsEarlier(b, expiry, es[i].at + p.retention);
        HoldsEarlier(b, es[q].at, es[q].at + p.retention);
        NotDropped(b, expiry, es[q].at, now);
      }
    }
  }

  /**
  A proof of possession that counts: under the DPoP scheme, sound, with a jti of 1 to 255
  characters not used before, issued within the lifetime of the check on either side, and by the
  token's own key if the token is bound to one.
  */
  predicate Proven(r: Presented, lifetime: nat, checkedAt: nat, used: set<string>) {
    && r.dpopScheme && r.proof.Some?
    && var p := r.proof.value;
    && p.sound && 0 < |p.jti| <= 255 && p.jti !in used
    && p.iat != 0 && p.iat * 1_000_000_000 - lifetime <= checkedAt <= p.iat * 1_000_000_000 + lifetime
    && (r.bound ==> p.jkt == r.tokenJkt)
  }

  lemma SpendsExact(p: Policy, s: Store, e: Event)
    requires e.Request?
    ensures Spends(p, s, e) <==> Proven(e.r, p.lifetime, e.checkedAt, s.Keys)
  {}

  class DPoPGuard {
    const lifetime: nat
    const backend: Backend
    ghost const delay: nat
    var store: Store
    ghost var events: seq<Event>

    ghost function Rule(): Policy { Shipped(lifetime, delay) }

    /** The store is always the end of a legal run. */
    ghost predicate Valid()
      reads this
    {
      && Sound(backend)
      && Run(backend, Rule(), events)
      && store == After(backend, Rule(), events, |events|)
    }

    /** The next event comes no earlier than the last one. */
    ghost predicate Next(e: Event)
      reads this
    {
      Timely(backend, Rule(), e) && (|events| > 0 ==> events[|events| - 1].at <= e.at)
    }

    /** A missing or non-positive lifetime means the 60-second default. */
    constructor (configured: Option<int>, backend: Backend, ghost delay: nat)
      requires Sound(backend)
      ensures Valid() && events == [] && this.backend == backend && this.delay == delay
      ensures lifetime == if configured.Some? && configured.value > 0 then configured.value else 60_000_000_000
      ensures lifetime > 0
    {
      lifetime := if configured.Some? && configured.value > 0 then configured.value else DEFAULT_LIFETIME;
      this.backend := backend;
      this.delay := delay;
      store := map[];
      events := [];
    }

    /** One request under enforcement: its two clock readings, and the instant of its insert. */
    method Validate(r: Presented, checkedAt: nat, stampedAt: nat, ghost at: nat) returns (v: Verdict)
      requires Valid() && Enforced(r) && Next(Request(r, checkedAt, stampedAt, at))
      modifies this
      ensures Valid() && events == old(events) + [Request(r, checkedAt, stampedAt, at)]
      ensures v.Pass? <==> Accepted(backend, Rule(), events, |old(events)|)
      ensures v.Pass? <==> Proven(r, lifetime, checkedAt, old(store).Keys)
      ensures store == if v.Pass? then old(store)[r.proof.value.jti := stampedAt + 2 * lifetime] else old(store)
      ensures v == Reject(InvalidToken) <==> !r.dpopScheme
      ensures v.Pass? && Enough(backend, Rule()) ==>
                forall i :: 0 <= i < |old(events)| && Accepted(backend, Rule(), events, i)
                            ==> !SameProof(events[i], events[|old(events)|])
    {
      ghost var e := Request(r, checkedAt, stampedAt, at);
      RunSnoc(backend, Rule(), events, e);
      SpendsExact(Rule(), store, e);
      v := Checks(lifetime, r, checkedAt);
      if v.Pass? {
        var jti := r.proof.value.jti;
        if jti in store {
          v := Reject(InvalidProof);
        } else {
          store := store[jti := stampedAt + 2 * lifetime];
        }
      }
      events := events + [e];
      if v.Pass? && Enough(backend, Rule()) {
        forall i | 0 <= i < |events| - 1 && Accepted(backend, Rule(), events, i)
          ensures !SameProof(events[i], events[|events| - 1])
        {
          RetentionEnough(backend, Rule(), events, i, |events| - 1);
        }
      }
    }

    /**
    The middleware's decision: proof is asked for when the token is bound or the request claims the
    DPoP scheme, and only then; a plain bearer token passes and leaves the store alone.
    */
    method Serve(r: Presented, checkedAt: nat, stampedAt: nat, ghost at: nat) returns (v: Verdict)
      requires Valid() && Next(Request(r, checkedAt, stampedAt, at))
      modifies this
      ensures Valid()
      ensures v.Pass? <==> (!r.bound && !r.dpopScheme) || Proven(r, lifetime, checkedAt, old(store).Keys)
      ensures v == Reject(InvalidToken) <==> r.bound && !r.dpopScheme
      ensures !r.bound && !r.dpopScheme ==> store == old(store) && events == old(events)
      ensures r.bound || r.dpopScheme ==> events == old(events) + [Request(r, checkedAt, stampedAt, at)]
    {
      if r.bound || r.dpopScheme {
        v := Validate(r, checkedAt, stampedAt, at);
      } else {
        v := Pass;
      }
    }

    /** Forgets ids whose retention is over; an id spent within the retention is still there. */
    method PurgeExpired(now: nat)
      requires Valid() && Next(Purge(now))
      modifies this
      ensures Valid() && events == old(events) + [Purge(now)]
      ensures forall jti :: jti in store <==> jti in old(store) && !Below(backend, old(store)[jti], now)
      ensures forall jti :: jti in store ==> store[jti] == old(store)[jti]
      ensures forall i :: 0 <= i < |old(events)| ==> HeldAt(backend, Rule(), events, i, now, store)
    {
      RunSnoc(backend, Rule(), events, Purge(now));
      store := Unexpired(backend, store, now);
      events := events + [Purge(now)];
      forall i | 0 <= i < |events| - 1 ensures HeldAt(backend, Rule(), events, i, now, store) {
        HeldUntilExpiry(backend, Rule(), events, i, now);
      }
    }
  }
}
