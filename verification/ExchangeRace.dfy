/**
Token exchange racing consent revocation.

An exchange checks its subject token and the consent grant, writes its issuance row, and then
reads both again before the token leaves (internal/services/token_exchange.go:749-773,
1270-1396, 1536-1573, 594-672).  A revocation withdraws the grant and then runs the cascade
(internal/services/grant_admin.go:148-194).  Each read and each write is one step, and any
number of exchanges and revocations interleave freely.
*/
module ExchangeRace {
  import opened Options
  import opened Issuances

  datatype Phase = SubjectChecked | Checked | Inserted | SubjectOk | Delivered | Refused

  /** One exchange: the row it will write, and whether a consent grant authorizes it. */
  datatype Exchange = Exchange(jti: string, row: Row, gated: bool, phase: Phase)

  datatype State = State(
    rows: Table,                     // issuance rows, keyed by token id
    consents: set<Grant>,            // active consent grants
    exchanges: map<nat, Exchange>,
    delivered: set<string>,          // tokens handed to a caller
    used: set<string>)               // token ids that exist anywhere

  const INIT := State(map[], {}, map[], {}, {})

  datatype Action =
    | Consent(g: Grant)
    | Withdraw(g: Grant)
    | Cascade(g: Grant, now: nat)
    | RevokeOne(id: string, now: nat)
    | CheckSubject(e: nat, x: Exchange)
    | CheckConsent(e: nat)
    | Insert(e: nat)
    | RecheckSubject(e: nat)
    | RecheckConsent(e: nat)
    | RecheckFails(e: nat)           // one of the two reads returned an error
    | RevokeOwn(e: nat, now: nat)

  /** The grant the consent gate looks up: the row's user, the consenting client, the target. */
  function GateOf(x: Exchange): Grant
    requires x.row.consentClient.Some?
  {
    Grant(x.row.user, x.row.consentClient.value, x.row.resource)
  }

  /** What an exchange may ask for: a fresh live Mint row; a consent gate names its client. */
  predicate WellFormed(x: Exchange) {
    && x.phase == SubjectChecked
    && x.row.kind.Mint? && x.row.jti == Some(x.jti) && x.row.revokedAt.None?
    && x.row.parentJti != Some(x.jti)
    && (x.gated ==> x.row.consentClient.Some?)
  }

  predicate SubjectRevoked(s: State, x: Exchange) {
    x.row.parentJti.Some? && x.row.parentJti.value in s.rows && s.rows[x.row.parentJti.value].revokedAt.Some?
  }

  /** A subject token can be presented once it was delivered, or when it never had a row. */
  predicate Presentable(s: State, x: Exchange) {
    x.row.parentJti.Some? ==> x.row.parentJti.value in s.rows ==> x.row.parentJti.value in s.delivered
  }

  predicate Enabled(s: State, a: Action) {
    match a
    case CheckSubject(e, x) => e !in s.exchanges && WellFormed(x) && Presentable(s, x) && !SubjectRevoked(s, x)
    case CheckConsent(e) =>
      && e in s.exchanges && s.exchanges[e].phase == SubjectChecked
      && (s.exchanges[e].gated ==> s.exchanges[e].row.consentClient.Some? && GateOf(s.exchanges[e]) in s.consents)
    case Insert(e) => e in s.exchanges && s.exchanges[e].phase == Checked && s.exchanges[e].jti !in s.used
    case RecheckSubject(e) => e in s.exchanges && s.exchanges[e].phase == Inserted
    case RecheckConsent(e) => e in s.exchanges && s.exchanges[e].phase == SubjectOk
                              && (s.exchanges[e].gated ==> s.exchanges[e].row.consentClient.Some?)
    case RecheckFails(e) =>
      && e in s.exchanges
      && ((s.exchanges[e].phase == Inserted && s.exchanges[e].row.parentJti.Some?)
          || (s.exchanges[e].phase == SubjectOk && s.exchanges[e].gated))
    case RevokeOwn(e, _) => e in s.exchanges && s.exchanges[e].phase == Refused
    case _ => true
  }

  ghost function Next(s: State, a: Action): State
    requires Enabled(s, a)
  {
    match a
    case Consent(g) => s.(consents := s.consents + {g})
    case Withdraw(g) => s.(consents := s.consents - {g})
    case Cascade(g, now) => s.(rows := Revoked(s.rows, Family(s.rows, g), now))
    case RevokeOne(id, now) => s.(rows := Revoked(s.rows, {id}, now))
    case CheckSubject(e, x) =>
      s.(exchanges := s.exchanges[e := x],
         used := s.used + if x.row.parentJti.Some? then {x.row.parentJti.value} else {})
    case CheckConsent(e) => s.(exchanges := s.exchanges[e := s.exchanges[e].(phase := Checked)])
    case Insert(e) =>
      var x := s.exchanges[e];
      s.(rows := s.rows[x.jti := x.row], exchanges := s.exchanges[e := x.(phase := Inserted)],
         used := s.used + {x.jti})
    case RecheckSubject(e) =>
      var x := s.exchanges[e];
      s.(exchanges := s.exchanges[e := x.(phase := if SubjectRevoked(s, x) then Refused else SubjectOk)])
    case RecheckConsent(e) =>
      var x := s.exchanges[e];
      if x.gated && GateOf(x) !in s.consents then s.(exchanges := s.exchanges[e := x.(phase := Refused)])
      else s.(exchanges := s.exchanges[e := x.(phase := Delivered)], delivered := s.delivered + {x.jti})
    case RecheckFails(e) => s.(exchanges := s.exchanges[e := s.exchanges[e].(phase := Refused)])
    case RevokeOwn(e, now) => s.(rows := Revoked(s.rows, {s.exchanges[e].jti}, now))
  }

  ghost predicate Steps(ss: seq<State>, acts: seq<Action>, i: nat)
    requires i < |acts| && |ss| == |acts| + 1
  {
    Enabled(ss[i], acts[i]) && ss[i + 1] == Next(ss[i], acts[i])
  }

  /** A whole run: the states it goes through and the actions between them. */
  ghost predicate Run(ss: seq<State>, acts: seq<Action>) {
    && |ss| == |acts| + 1 && ss[0] == INIT
    && forall i :: 0 <= i < |acts| ==> Steps(ss, acts, i)
  }

  // ---------------------------------------------------------------------------
  // What every state keeps

  predicate Written(x: Exchange) {
    x.phase != SubjectChecked && x.phase != Checked
  }

  ghost predicate ExchangeInv(s: State, x: Exchange) {
    && x.row.kind.Mint? && x.row.jti == Some(x.jti) && x.row.revokedAt.None?
    && x.row.parentJti != Some(x.jti)
    && (x.gated ==> x.row.consentClient.Some?)
    && (x.row.parentJti.Some? ==> x.row.parentJti.value in s.used && Presentable(s, x))
    && (Written(x) ==> x.jti in s.rows && s.rows[x.jti].(revokedAt := None) == x.row)
    && (x.phase == Delivered <==> Written(x) && x.jti in s.delivered)
  }

  ghost predicate RowInv(s: State, id: string)
    requires id in s.rows
  {
    && s.rows[id].kind.Mint? && s.rows[id].jti == Some(id) && id in s.used
    && (s.rows[id].parentJti.Some? ==> s.rows[id].parentJti.value in s.used)
  }

  ghost predicate Inv(s: State) {
    && s.delivered <= s.rows.Keys
    && (forall id :: id in s.rows ==> RowInv(s, id))
    && (forall e :: e in s.exchanges ==> ExchangeInv(s, s.exchanges[e]))
    && (forall e, f :: e in s.exchanges && f in s.exchanges && e != f
                       && Written(s.exchanges[e]) && Written(s.exchanges[f])
                       ==> s.exchanges[e].jti != s.exchanges[f].jti)
  }

  lemma NextKeepsInv(s: State, a: Action)
    requires Inv(s) && Enabled(s, a)
    ensures Inv(Next(s, a))
  {
    var s' := Next(s, a);
    match a
    case Consent(_) => assert forall e :: e in s'.exchanges ==> ExchangeInv(s, s'.exchanges[e]);
    case Withdraw(_) => assert forall e :: e in s'.exchanges ==> ExchangeInv(s, s'.exchanges[e]);
    case Cascade(g, now) => MarksKeepInv(s, Family(s.rows, g), now);
    case RevokeOne(id, now) => MarksKeepInv(s, {id}, now);
    case RevokeOwn(e, now) => MarksKeepInv(s, {s.exchanges[e].jti}, now);
    case CheckSubject(_, _) => CheckKeepsInv(s, a);
    case CheckConsent(_) => CheckKeepsInv(s, a);
    case Insert(_) => InsertKeepsInv(s, a);
    case RecheckSubject(_) => RecheckKeepsInv(s, a);
    case RecheckConsent(_) => RecheckKeepsInv(s, a);
    case RecheckFails(_) => RecheckKeepsInv(s, a);
  }

  lemma MarksKeepInv(s: State, ids: set<string>, now: nat)
    requires Inv(s)
    ensures Inv(s.(rows := Revoked(s.rows, ids, now)))
  {
    var s' := s.(rows := Revoked(s.rows, ids, now));
    forall id | id in s'.rows ensures RowInv(s', id) { assert RowInv(s, id); }
    forall e | e in s'.exchanges ensures ExchangeInv(s', s'.exchanges[e]) { assert ExchangeInv(s, s.exchanges[e]); }
  }

  lemma CheckKeepsInv(s: State, a: Action)
    requires Inv(s) && (a.CheckSubject? || a.CheckConsent?) && Enabled(s, a)
    ensures Inv(Next(s, a))
  {
    var s' := Next(s, a);
    forall id | id in s'.rows ensures RowInv(s', id) { assert RowInv(s, id); }
    forall e | e in s'.exchanges ensures ExchangeInv(s', s'.exchanges[e]) {
      if e in s.exchanges { assert ExchangeInv(s, s.exchanges[e]); }
    }
  }

  lemma NewTokenHasNoRow(s: State, jti: string)
    requires Inv(s) && jti !in s.used
    ensures jti !in s.rows
  {}

  lemma InsertKeepsInv(s: State, a: Action)
    requires Inv(s) && a.Insert? && Enabled(s, a)
    ensures Inv(Next(s, a))
  {
    var s' := Next(s, a);
    var x := s.exchanges[a.e];
    assert ExchangeInv(s, x);
    NewTokenHasNoRow(s, x.jti);
    forall id | id in s'.rows ensures RowInv(s', id) { if id != x.jti { assert RowInv(s, id); } }
    forall e | e in s'.exchanges ensures ExchangeInv(s', s'.exchanges[e]) {
      assert ExchangeInv(s, s.exchanges[e]);
    }
  }

  /** An exchange past its insert moves on without its token leaving. */
  lemma MoveKeepsInv(s: State, e: nat, to: Phase)
    requires Inv(s) && e in s.exchanges && (s.exchanges[e].phase == Inserted || s.exchanges[e].phase == SubjectOk)
    requires to == SubjectOk || to == Refused
    ensures Inv(s.(exchanges := s.exchanges[e := s.exchanges[e].(phase := to)]))
  {}

  lemma DeliveryKeepsInv(s: State, e: nat)
    requires Inv(s) && e in s.exchanges && s.exchanges[e].phase == SubjectOk
    ensures Inv(s.(exchanges := s.exchanges[e := s.exchanges[e].(phase := Delivered)],
                   delivered := s.delivered + {s.exchanges[e].jti}))
  {}

  lemma RecheckKeepsInv(s: State, a: Action)
    requires Inv(s) && (a.RecheckSubject? || a.RecheckConsent? || a.RecheckFails?) && Enabled(s, a)
    ensures Inv(Next(s, a))
  {
    MoveKeepsInv(s, a.e, SubjectOk);
    MoveKeepsInv(s, a.e, Refused);
    if a.RecheckConsent? { DeliveryKeepsInv(s, a.e); }
  }

  // ---------------------------------------------------------------------------
  // After a cascade

  ghost predicate LiveIn(t: Table, g: Grant, id: string) {
    id in Family(t, g) && t[id].revokedAt.None?
  }

  /** An exchange whose row is in the family and which is bound to be refused. */
  ghost predicate Doomed(s: State, g: Grant, x: Exchange) {
    || (x.gated && IsRoot(x.row, g))
    || (x.phase == Inserted && SubjectRevoked(s, x))
  }

  /** The grant is gone, and whatever is live in its family is undelivered and bound to be refused. */
  ghost predicate Quenched(s: State, g: Grant) {
    && g !in s.consents
    && (forall e :: e in s.exchanges ==> ExchangeQuenched(s, g, s.exchanges[e]))
    && (forall id :: LiveIn(s.rows, g, id) ==> id !in s.delivered)
  }

  ghost predicate ExchangeQuenched(s: State, g: Grant, x: Exchange) {
    (x.phase == Inserted || x.phase == SubjectOk) && LiveIn(s.rows, g, x.jti) ==> Doomed(s, g, x)
  }

  /**
  Writing a root that no consent gate watches, from no subject token or one that is not itself
  revoked: a code or refresh mint, a self-exchange, or a fronted exchange recorded under the
  grant's client.
  */
  predicate UngatedRoot(s: State, a: Action, g: Grant) {
    && a.Insert? && a.e in s.exchanges
    && !s.exchanges[a.e].gated && IsRoot(s.exchanges[a.e].row, g) && !SubjectRevoked(s, s.exchanges[a.e])
  }

  lemma CascadeQuenches(s: State, g: Grant, now: nat)
    requires Inv(s) && g !in s.consents
    ensures Quenched(Next(s, Cascade(g, now)), g)
  {
    FamilyIgnoresMarks(s.rows, g, Family(s.rows, g), now);
  }

  lemma MarksKeepQuenched(s: State, g: Grant, ids: set<string>, now: nat)
    requires Inv(s) && Quenched(s, g)
    ensures Quenched(s.(rows := Revoked(s.rows, ids, now)), g)
  {
    var s' := s.(rows := Revoked(s.rows, ids, now));
    FamilyIgnoresMarks(s.rows, g, ids, now);
    forall id | LiveIn(s'.rows, g, id) ensures LiveIn(s.rows, g, id) {}
    forall e | e in s'.exchanges ensures ExchangeQuenched(s', g, s'.exchanges[e]) {
      assert ExchangeQuenched(s, g, s.exchanges[e]);
    }
  }

  lemma CheckKeepsQuenched(s: State, a: Action, g: Grant)
    requires Inv(s) && Quenched(s, g) && (a.CheckSubject? || a.CheckConsent?) && Enabled(s, a)
    ensures Quenched(Next(s, a), g)
  {
    var s' := Next(s, a);
    forall e | e in s'.exchanges ensures ExchangeQuenched(s', g, s'.exchanges[e]) {
      if e in s.exchanges { assert ExchangeQuenched(s, g, s.exchanges[e]); }
    }
  }

  lemma InsertKeepsQuenched(s: State, a: Action, g: Grant)
    requires Inv(s) && Quenched(s, g) && a.Insert? && Enabled(s, a) && !UngatedRoot(s, a, g)
    ensures Quenched(Next(s, a), g)
  {
    var s' := Next(s, a);
    var x := s.exchanges[a.e];
    assert ExchangeInv(s, x);
    NewTokenHasNoRow(s, x.jti);
    forall other | other in s.rows ensures s.rows[other].jti != x.row.jti && s.rows[other].parentJti != x.row.jti {
      assert RowInv(s, other);
    }
    FamilyAfterInsert(s.rows, g, x.jti, x.row);
    forall e | e in s'.exchanges ensures ExchangeQuenched(s', g, s'.exchanges[e]) {
      assert ExchangeInv(s, s.exchanges[e]);
      if e == a.e {
        if x.jti in Family(s'.rows, g) && !IsRoot(x.row, g) { ParentIsRevoked(s, g, x); }
      } else {
        assert ExchangeQuenched(s, g, s.exchanges[e]);
      }
    }
  }

  /** A subject token inside the quenched family has a row, was delivered, and so is revoked. */
  lemma ParentIsRevoked(s: State, g: Grant, x: Exchange)
    requires Inv(s) && Quenched(s, g) && ExchangeInv(s, x)
    requires x.row.parentJti.Some? && InLineage(s.rows, g, x.row.parentJti.value)
    ensures SubjectRevoked(s, x)
  {
    var p := x.row.parentJti.value;
    LineageHasRow(s.rows, g, p);
    var id :| id in s.rows && Walkable(s.rows[id]) && s.rows[id].jti == Some(p);
    assert RowInv(s, id);
    assert p in Family(s.rows, g) && p in s.delivered && !LiveIn(s.rows, g, p);
  }

  lemma RecheckKeepsQuenched(s: State, a: Action, g: Grant)
    requires Inv(s) && Quenched(s, g) && (a.RecheckSubject? || a.RecheckConsent? || a.RecheckFails?) && Enabled(s, a)
    ensures Quenched(Next(s, a), g)
  {
    var s' := Next(s, a);
    var x := s.exchanges[a.e];
    assert ExchangeInv(s, x) && ExchangeQuenched(s, g, x);
    forall e | e in s'.exchanges ensures ExchangeQuenched(s', g, s'.exchanges[e]) {
      assert ExchangeQuenched(s, g, s.exchanges[e]);
    }
    assert x.gated && IsRoot(x.row, g) ==> GateOf(x) == g;
  }

  lemma NextKeepsQuenched(s: State, a: Action, g: Grant)
    requires Inv(s) && Quenched(s, g) && Enabled(s, a)
    requires a != Consent(g) && !UngatedRoot(s, a, g)
    ensures Quenched(Next(s, a), g)
  {
    var s' := Next(s, a);
    match a
    case Consent(_) => assert forall e :: e in s'.exchanges ==> ExchangeQuenched(s, g, s'.exchanges[e]);
    case Withdraw(_) => assert forall e :: e in s'.exchanges ==> ExchangeQuenched(s, g, s'.exchanges[e]);
    case Cascade(h, now) => MarksKeepQuenched(s, g, Family(s.rows, h), now);
    case RevokeOne(id, now) => MarksKeepQuenched(s, g, {id}, now);
    case RevokeOwn(e, now) => MarksKeepQuenched(s, g, {s.exchanges[e].jti}, now);
    case CheckSubject(_, _) => CheckKeepsQuenched(s, a, g);
    case CheckConsent(_) => CheckKeepsQuenched(s, a, g);
    case Insert(_) => InsertKeepsQuenched(s, a, g);
    case RecheckSubject(_) => RecheckKeepsQuenched(s, a, g);
    case RecheckConsent(_) => RecheckKeepsQuenched(s, a, g);
    case RecheckFails(_) => RecheckKeepsQuenched(s, a, g);
  }

  // ---------------------------------------------------------------------------
  // Whole runs

  lemma StepAt(ss: seq<State>, acts: seq<Action>, i: nat)
    requires Run(ss, acts) && i < |acts|
    ensures Enabled(ss[i], acts[i]) && ss[i + 1] == Next(ss[i], acts[i])
  {
    assert Steps(ss, acts, i);
  }

  lemma {:induction false} InvAt(ss: seq<State>, acts: seq<Action>, i: nat)
    requires Run(ss, acts) && i <= |acts|
    ensures Inv(ss[i])
  {
    if i > 0 {
      InvAt(ss, acts, i - 1);
      StepAt(ss, acts, i - 1);
      NextKeepsInv(ss[i - 1], acts[i - 1]);
    }
  }

  lemma {:induction false} GrantStaysGone(ss: seq<State>, acts: seq<Action>, g: Grant, w: nat, i: nat)
    requires Run(ss, acts) && w < i <= |acts| && acts[w] == Withdraw(g)
    requires forall k :: w < k < i ==> acts[k] != Consent(g)
    ensures g !in ss[i].consents
    decreases i
  {
    StepAt(ss, acts, i - 1);
    if w + 1 < i { GrantStaysGone(ss, acts, g, w, i - 1); }
  }

  lemma {:induction false} QuenchedAt(ss: seq<State>, acts: seq<Action>, g: Grant, w: nat, c: nat, n: nat)
    requires Run(ss, acts) && w < c < n <= |acts|
    requires acts[w] == Withdraw(g) && acts[c].Cascade? && acts[c].g == g
    requires forall k :: w < k < n ==> acts[k] != Consent(g)
    requires forall k :: c < k < n ==> !UngatedRoot(ss[k], acts[k], g)
    ensures Quenched(ss[n], g)
    decreases n
  {
    StepAt(ss, acts, n - 1);
    InvAt(ss, acts, n - 1);
    if c == n - 1 {
      GrantStaysGone(ss, acts, g, w, c);
      CascadeQuenches(ss[c], g, acts[c].now);
    } else {
      QuenchedAt(ss, acts, g, w, c, n - 1);
      NextKeepsQuenched(ss[n - 1], acts[n - 1], g);
    }
  }

  /**
  No token outlives its consent.  Once a revocation has withdrawn the grant and run its cascade,
  and as long as the user does not consent again, no token of the grant's family that any caller
  holds is live, however the exchanges in flight interleave with the revocation, provided no
  ungated root of that grant was written after the cascade.
  */
  lemma NoTokenOutlivesConsent(ss: seq<State>, acts: seq<Action>, g: Grant, w: nat, c: nat, n: nat)
    requires Run(ss, acts) && w < c < n <= |acts|
    requires acts[w] == Withdraw(g) && acts[c].Cascade? && acts[c].g == g
    requires forall k :: w < k < n ==> acts[k] != Consent(g)
    requires forall k :: c < k < n ==> !UngatedRoot(ss[k], acts[k], g)
    ensures forall id :: id in Family(ss[n].rows, g) && id in ss[n].delivered ==> ss[n].rows[id].revokedAt.Some?
  {
    QuenchedAt(ss, acts, g, w, c, n);
    forall id | id in Family(ss[n].rows, g) && id in ss[n].delivered ensures ss[n].rows[id].revokedAt.Some? {
      assert !LiveIn(ss[n].rows, g, id);
    }
  }

  /**
  The proviso cannot be dropped: wherever an ungated root is written, its exchange can finish at
  once, and the caller then holds a live token of the family although the grant is gone.
  */
  lemma UngatedRootEscapes(s: State, e: nat, g: Grant)
    requires Inv(s) && Enabled(s, Insert(e)) && UngatedRoot(s, Insert(e), g)
    ensures var s1 := Next(s, Insert(e));
            Enabled(s1, RecheckSubject(e)) &&
            var s2 := Next(s1, RecheckSubject(e));
            Enabled(s2, RecheckConsent(e)) &&
            var s3 := Next(s2, RecheckConsent(e));
            var jti := s.exchanges[e].jti;
            s3.consents == s.consents && jti in s3.delivered && LiveIn(s3.rows, g, jti)
  {
    var x := s.exchanges[e];
    assert ExchangeInv(s, x);
    NewTokenHasNoRow(s, x.jti);
    var s1 := Next(s, Insert(e));
    assert x.jti in s1.rows && IsRoot(s1.rows[x.jti], g);
    LineageRoot(s1.rows, g, x.jti);
  }

  ghost function Extend(ss: seq<State>, a: Action): seq<State>
    requires ss != [] && Enabled(ss[|ss| - 1], a)
  {
    ss + [Next(ss[|ss| - 1], a)]
  }

  lemma RunExtends(ss: seq<State>, acts: seq<Action>, a: Action)
    requires Run(ss, acts) && Enabled(ss[|ss| - 1], a)
    ensures Run(Extend(ss, a), acts + [a])
  {
    var ss', acts' := Extend(ss, a), acts + [a];
    forall i | 0 <= i < |acts'| ensures Steps(ss', acts', i) {
      if i < |acts| { assert Steps(ss, acts, i); }
    }
  }

  /** A complete revocation while an exchange is between its check and its insert. */
  lemma RevokedBeforeInsert(g: Grant, x: Exchange) returns (ss: seq<State>, acts: seq<Action>)
    requires WellFormed(x) && !x.gated
    ensures Run(ss, acts) && acts == [Consent(g), CheckSubject(0, x), CheckConsent(0), Withdraw(g), Cascade(g, 0)]
    ensures ss[5].rows == map[] && ss[5].exchanges == map[0 := x.(phase := Checked)]
    ensures x.jti !in ss[5].used
  {
    ss, acts := [INIT], [];
    RunExtends(ss, acts, Consent(g));
    ss, acts := Extend(ss, Consent(g)), acts + [Consent(g)];
    RunExtends(ss, acts, CheckSubject(0, x));
    ss, acts := Extend(ss, CheckSubject(0, x)), acts + [CheckSubject(0, x)];
    RunExtends(ss, acts, CheckConsent(0));
    ss, acts := Extend(ss, CheckConsent(0)), acts + [CheckConsent(0)];
    RunExtends(ss, acts, Withdraw(g));
    ss, acts := Extend(ss, Withdraw(g)), acts + [Withdraw(g)];
    RunExtends(ss, acts, Cascade(g, 0));
    ss, acts := Extend(ss, Cascade(g, 0)), acts + [Cascade(g, 0)];
  }

  /** The last three steps of an exchange, taken in a row. */
  lemma FinishesAtOnce(ss: seq<State>, acts: seq<Action>) returns (ss': seq<State>, acts': seq<Action>)
    requires Run(ss, acts)
    requires var s := ss[|ss| - 1];
             Enabled(s, Insert(0)) && Enabled(Next(s, Insert(0)), RecheckSubject(0)) &&
             Enabled(Next(Next(s, Insert(0)), RecheckSubject(0)), RecheckConsent(0))
    ensures acts' == acts + [Insert(0), RecheckSubject(0), RecheckConsent(0)] && Run(ss', acts')
    ensures var s := ss[|ss| - 1];
            ss'[|acts| + 3] == Next(Next(Next(s, Insert(0)), RecheckSubject(0)), RecheckConsent(0))
  {
    ss', acts' := ss, acts;
    RunExtends(ss', acts', Insert(0));
    ss', acts' := Extend(ss', Insert(0)), acts' + [Insert(0)];
    RunExtends(ss', acts', RecheckSubject(0));
    ss', acts' := Extend(ss', RecheckSubject(0)), acts' + [RecheckSubject(0)];
    RunExtends(ss', acts', RecheckConsent(0));
    ss', acts' := Extend(ss', RecheckConsent(0)), acts' + [RecheckConsent(0)];
  }

  /** From any run that can write an ungated root next, the exchange can finish and its token is live. */
  lemma UngatedFinishes(ss: seq<State>, acts: seq<Action>, g: Grant) returns (ss': seq<State>, acts': seq<Action>)
    requires Run(ss, acts) && Enabled(ss[|acts|], Insert(0)) && UngatedRoot(ss[|acts|], Insert(0), g)
    ensures acts' == acts + [Insert(0), RecheckSubject(0), RecheckConsent(0)] && Run(ss', acts')
    ensures var jti, s := ss[|acts|].exchanges[0].jti, ss'[|acts| + 3];
            jti in s.delivered && LiveIn(s.rows, g, jti)
  {
    InvAt(ss, acts, |acts|);
    UngatedRootEscapes(ss[|acts|], 0, g);
    ss', acts' := FinishesAtOnce(ss, acts);
  }

  /** And it does happen after a complete revocation, for every grant and every such exchange. */
  lemma RevocationMissesUngatedRoot(g: Grant, x: Exchange) returns (ss: seq<State>, acts: seq<Action>)
    requires WellFormed(x) && !x.gated && IsRoot(x.row, g)
    ensures Run(ss, acts) && |acts| == 8 && acts[3] == Withdraw(g) && acts[4] == Cascade(g, 0)
    ensures forall k :: 3 < k < 8 ==> acts[k] != Consent(g)
    ensures x.jti in ss[8].delivered && LiveIn(ss[8].rows, g, x.jti)
  {
    ss, acts := RevokedBeforeInsert(g, x);
    ss, acts := UngatedFinishes(ss, acts, g);
  }

  // ---------------------------------------------------------------------------
  // What is not revoked is delivered

  /** Each recheck refuses for its own reason only: a revoked subject row, a withdrawn grant, a failed read. */
  lemma RecheckExact(s: State, a: Action)
    requires Inv(s) && Enabled(s, a) && (a.RecheckSubject? || a.RecheckConsent? || a.RecheckFails?)
    ensures var x, s' := s.exchanges[a.e], Next(s, a);
            && (a.RecheckSubject? ==>
                  (s'.exchanges[a.e].phase == Refused <==>
                   exists p :: p in s.rows && x.row.parentJti == Some(p) && s.rows[p].revokedAt.Some?))
            && (a.RecheckConsent? ==>
                  (x.jti in s'.delivered <==>
                   !x.gated || Grant(x.row.user, x.row.consentClient.value, x.row.resource) in s.consents))
            && (a.RecheckConsent? ==> (s'.exchanges[a.e].phase == Delivered <==> x.jti in s'.delivered))
            && (a.RecheckFails? ==> s'.exchanges[a.e].phase == Refused && x.jti !in s'.delivered)
            && s'.rows == s.rows
  {
    assert ExchangeInv(s, s.exchanges[a.e]);
  }

  /** A refused exchange can take its own row out, and nothing else changes. */
  lemma RefusalRevokesRow(s: State, e: nat, now: nat)
    requires Inv(s) && Enabled(s, RevokeOwn(e, now))
    ensures var jti, s' := s.exchanges[e].jti, Next(s, RevokeOwn(e, now));
            && jti in s'.rows && s'.rows[jti].revokedAt.Some? && jti !in s'.delivered
            && forall id :: id in s.rows && id != jti ==> id in s'.rows && s'.rows[id] == s.rows[id]
  {
    assert ExchangeInv(s, s.exchanges[e]);
  }

  /** An exchange that nothing stands against: its grant given, its subject live, its token new. */
  predicate Entitled(s: State, e: nat, x: Exchange) {
    && e !in s.exchanges && x.phase == SubjectChecked
    && x.row.kind.Mint? && x.row.jti == Some(x.jti) && x.row.revokedAt.None?
    && x.jti !in s.used && x.row.parentJti != Some(x.jti)
    && (x.gated ==> x.row.consentClient.Some? && Grant(x.row.user, x.row.consentClient.value, x.row.resource) in s.consents)
    && (x.row.parentJti.Some? && x.row.parentJti.value in s.rows ==>
          x.row.parentJti.value in s.delivered && s.rows[x.row.parentJti.value].revokedAt.None?)
  }

  /** The five steps of exchange `e`. */
  function Course(e: nat, x: Exchange): seq<Action> {
    [CheckSubject(e, x), CheckConsent(e), Insert(e), RecheckSubject(e), RecheckConsent(e)]
  }

  /** The exchange up to its insert, as long as nothing stands against it. */
  lemma EntitledInserts(s: State, e: nat, x: Exchange)
    requires Inv(s) && Entitled(s, e, x)
    ensures var c := Course(e, x);
            && Enabled(s, c[0]) && Enabled(Next(s, c[0]), c[1]) && Enabled(Next(Next(s, c[0]), c[1]), c[2])
            && var s3 := Next(Next(Next(s, c[0]), c[1]), c[2]);
            && s3.rows == s.rows[x.jti := x.row] && s3.consents == s.consents && s3.delivered == s.delivered
            && e in s3.exchanges && s3.exchanges[e] == x.(phase := Inserted)
  {}

  /** And the two rechecks after it. */
  lemma InsertedDelivers(s: State, e: nat, x: Exchange)
    requires e in s.exchanges && s.exchanges[e] == x.(phase := Inserted) && !SubjectRevoked(s, x)
    requires x.gated ==> x.row.consentClient.Some? && GateOf(x) in s.consents
    ensures Enabled(s, RecheckSubject(e)) && Enabled(Next(s, RecheckSubject(e)), RecheckConsent(e))
    ensures var s2 := Next(Next(s, RecheckSubject(e)), RecheckConsent(e));
            s2.delivered == s.delivered + {x.jti} && s2.rows == s.rows
  {}

  /** `run` takes the actions one after the other from `s`. */
  ghost predicate Takes(s: State, acts: seq<Action>, run: seq<State>) {
    && |run| == |acts| + 1 && run[0] == s
    && forall i :: 0 <= i < |acts| ==> Steps(run, acts, i)
  }

  /**
  While its grant stands and its subject is not revoked an exchange can run to its end in every
  reachable state, and its caller then holds a live token.
  */
  lemma EntitledDelivers(s: State, e: nat, x: Exchange) returns (run: seq<State>)
    requires Inv(s) && Entitled(s, e, x)
    ensures Takes(s, Course(e, x), run)
    ensures x.jti in run[5].delivered && x.jti in run[5].rows && run[5].rows[x.jti].revokedAt.None?
  {
    var c := Course(e, x);
    EntitledInserts(s, e, x);
    var s1 := Next(s, c[0]);
    var s2 := Next(s1, c[1]);
    var s3 := Next(s2, c[2]);
    NewTokenHasNoRow(s, x.jti);
    InsertedDelivers(s3, e, x);
    run := [s, s1, s2, s3, Next(s3, c[3]), Next(Next(s3, c[3]), c[4])];
    forall i | 0 <= i < 5 ensures Steps(run, c, i) {}
  }

  /** In particular right after the user consents. */
  lemma ConsentedDelivers(s: State, e: nat, x: Exchange, g: Grant) returns (run: seq<State>)
    requires Inv(s) && x.row.consentClient == Some(g.client) && x.row.user == g.user && x.row.resource == g.resource
    requires Entitled(s, e, x.(gated := false)) && x.gated
    ensures Takes(Next(s, Consent(g)), Course(e, x), run) && x.jti in run[5].delivered
  {
    NextKeepsInv(s, Consent(g));
    run := EntitledDelivers(Next(s, Consent(g)), e, x);
  }

  // ---------------------------------------------------------------------------
  // What is delivered was authorized

  /** The step that brought exchange `e` to where it stands. */
  lemma {:induction false} CameFrom(ss: seq<State>, acts: seq<Action>, e: nat, n: nat) returns (j: nat)
    requires Run(ss, acts) && n <= |acts| && e in ss[n].exchanges
    ensures j < n && Enabled(ss[j], acts[j]) && ss[j + 1] == Next(ss[j], acts[j])
    ensures e in ss[j + 1].exchanges && ss[j + 1].exchanges[e] == ss[n].exchanges[e]
    ensures e in ss[j].exchanges ==> ss[j].exchanges[e] != ss[n].exchanges[e]
  {
    StepAt(ss, acts, n - 1);
    if e in ss[n - 1].exchanges && ss[n - 1].exchanges[e] == ss[n].exchanges[e] {
      j := CameFrom(ss, acts, e, n - 1);
    } else {
      j := n - 1;
    }
  }

  /** What brings an exchange to each phase, and what that step finds. */
  predicate BroughtBy(s: State, a: Action, e: nat, x: Exchange) {
    match x.phase
    case SubjectChecked => a == CheckSubject(e, x) && !SubjectRevoked(s, x)
    case Checked =>
      && a == CheckConsent(e) && e in s.exchanges && s.exchanges[e] == x.(phase := SubjectChecked)
      && (x.gated ==> x.row.consentClient.Some? && GateOf(x) in s.consents)
    case Inserted => a == Insert(e) && e in s.exchanges && s.exchanges[e] == x.(phase := Checked)
    case SubjectOk =>
      && a == RecheckSubject(e) && e in s.exchanges && s.exchanges[e] == x.(phase := Inserted)
      && !SubjectRevoked(s, x)
    case Delivered =>
      && a == RecheckConsent(e) && e in s.exchanges && s.exchanges[e] == x.(phase := SubjectOk)
      && (x.gated ==> x.row.consentClient.Some? && GateOf(x) in s.consents)
    case Refused => a.RecheckSubject? || a.RecheckConsent? || a.RecheckFails?
  }

  lemma StepSetsPhase(s: State, a: Action, e: nat)
    requires Enabled(s, a) && e in Next(s, a).exchanges
    requires e in s.exchanges ==> s.exchanges[e] != Next(s, a).exchanges[e]
    ensures BroughtBy(s, a, e, Next(s, a).exchanges[e])
  {}

  lemma PhaseCameFrom(ss: seq<State>, acts: seq<Action>, e: nat, n: nat) returns (j: nat)
    requires Run(ss, acts) && n <= |acts| && e in ss[n].exchanges
    ensures j < n && BroughtBy(ss[j], acts[j], e, ss[n].exchanges[e])
  {
    j := CameFrom(ss, acts, e, n);
    StepSetsPhase(ss[j], acts[j], e);
  }

  /** The subject token has no revoked row, and the grant of a gated exchange stands. */
  ghost predicate SubjectLive(s: State, x: Exchange) {
    forall p :: p in s.rows && x.row.parentJti == Some(p) ==> s.rows[p].revokedAt.None?
  }

  ghost predicate GrantStands(s: State, x: Exchange) {
    x.gated ==> x.row.consentClient.Some? && Grant(x.row.user, x.row.consentClient.value, x.row.resource) in s.consents
  }

  /**
  Every delivered token passed both checks twice, in this order: subject, consent, then its row was
  written, then subject and consent again, each read finding the subject live and the grant given.
  */
  lemma DeliveredWasAuthorized(ss: seq<State>, acts: seq<Action>, e: nat, n: nat)
    returns (subject: nat, consent: nat, insert: nat, subject': nat, consent': nat)
    requires Run(ss, acts) && n <= |acts| && e in ss[n].exchanges && ss[n].exchanges[e].phase == Delivered
    ensures subject < consent < insert < subject' < consent' < n
    ensures acts[insert] == Insert(e) && acts[subject'] == RecheckSubject(e) && acts[consent'] == RecheckConsent(e)
    ensures acts[subject].CheckSubject? && acts[subject].e == e && acts[consent] == CheckConsent(e)
    ensures var x := ss[n].exchanges[e];
            && SubjectLive(ss[subject], x) && GrantStands(ss[consent], x)
            && SubjectLive(ss[subject'], x) && GrantStands(ss[consent'], x)
  {
    consent' := PhaseCameFrom(ss, acts, e, n);
    subject' := PhaseCameFrom(ss, acts, e, consent');
    insert := PhaseCameFrom(ss, acts, e, subject');
    consent := PhaseCameFrom(ss, acts, e, insert);
    subject := PhaseCameFrom(ss, acts, e, consent);
  }
}
