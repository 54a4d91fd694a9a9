/**
What every answer of the tracker means, told from the run alone: engagements, resets and the clock
(api/shared/authlockout.go:226-315, 422-434).
*/
module LockoutAnswers {
  import opened Lockout
  import opened LockoutRuns

  /** The lock that step `e` engaged is still in force when step `j` runs. */
  ghost predicate InForce(cfg: Settings, tr: seq<Step>, k: Key, e: nat, j: nat)
    requires j < |tr|
  {
    && e < j && tr[e].op == Fail(k) && tr[e].out.flag
    && tr[j].now < tr[e].now + cfg.lockout
    && forall i :: e < i < j ==> tr[i].op != Reset(k)
  }

  ghost predicate LockStands(cfg: Settings, tr: seq<Step>, k: Key, j: nat)
    requires j < |tr|
  {
    exists e :: 0 <= e < j && InForce(cfg, tr, k, e, j)
  }

  lemma InForceLocked(cfg: Settings, tr: seq<Step>, k: Key, e: nat, j: nat)
    requires Run(cfg, tr) && j < |tr| && InForce(cfg, tr, k, e, j)
    ensures cfg.failMax > 0 && k in tr[j].pre && tr[j].pre[k].lockedUntil == tr[e].now + cfg.lockout
  {
    assert IsEngaged(tr[e], k) && forall i :: e < i < j ==> !IsReset(tr[i], k);
    EngagedEntry(cfg, tr, k, e);
    LockCarries(cfg, tr, k, e, j);
  }

  /** The map holds a lock for the key exactly when the run has one standing. */
  lemma LockedIffStands(cfg: Settings, tr: seq<Step>, k: Key, j: nat)
    requires Run(cfg, tr) && cfg.failMax > 0 && j < |tr|
    ensures LockedIn(tr[j].pre, k, tr[j].now) <==> LockStands(cfg, tr, k, j)
  {
    if LockStands(cfg, tr, k, j) {
      var e :| 0 <= e < j && InForce(cfg, tr, k, e, j);
      InForceLocked(cfg, tr, k, e, j);
    }
    if LockedIn(tr[j].pre, k, tr[j].now) {
      StepAt(cfg, tr, j);
      var e := LockWasEngaged(cfg, tr, k, j, tr[j].pre[k].lockedUntil);
      assert forall i :: e < i < j ==> !IsReset(tr[i], k);
      assert InForce(cfg, tr, k, e, j);
    }
  }

  /**
  A query says "locked" if and only if the key engaged a lock less than one lockout ago and was not
  reset since, and then names the end of that lock; otherwise it says nothing at all.
  */
  lemma QueryExact(cfg: Settings, tr: seq<Step>, k: Key, j: nat)
    requires Run(cfg, tr) && cfg.failMax > 0 && j < |tr| && tr[j].op == Query(k)
    ensures tr[j].out.flag <==> LockStands(cfg, tr, k, j)
    ensures forall e :: 0 <= e < j && InForce(cfg, tr, k, e, j) ==> tr[j].out == Verdict(tr[e].now + cfg.lockout, true)
    ensures !LockStands(cfg, tr, k, j) ==> tr[j].out == Verdict(0, false)
  {
    StepAt(cfg, tr, j);
    LockedIffStands(cfg, tr, k, j);
    forall e | 0 <= e < j && InForce(cfg, tr, k, e, j) ensures tr[j].out == Verdict(tr[e].now + cfg.lockout, true) {
      InForceLocked(cfg, tr, k, e, j);
    }
  }

  /**
  A recorded failure answers with the deadline of a standing lock and is not counted; otherwise it
  engages one, to end one lockout from now, or says nothing at all.
  */
  lemma FailureExact(cfg: Settings, tr: seq<Step>, k: Key, j: nat)
    requires Run(cfg, tr) && cfg.failMax > 0 && j < |tr| && tr[j].op == Fail(k)
    ensures forall e :: 0 <= e < j && InForce(cfg, tr, k, e, j) ==>
              tr[j].out == Verdict(tr[e].now + cfg.lockout, false) && tr[j].post == tr[j].pre
    ensures !LockStands(cfg, tr, k, j) ==>
              tr[j].out == Verdict(0, false) || tr[j].out == Verdict(tr[j].now + cfg.lockout, true)
  {
    var s := tr[j];
    StepAt(cfg, tr, j);
    LockedIffStands(cfg, tr, k, j);
    FailureOwnKey(cfg, s.pre, k, s.now, s.choice, s.out, s.post);
    forall e | 0 <= e < j && InForce(cfg, tr, k, e, j)
      ensures s.out == Verdict(tr[e].now + cfg.lockout, false) && s.post == s.pre
    {
      InForceLocked(cfg, tr, k, e, j);
    }
  }

  /** A threshold that is not positive switches the tracker off: it answers nothing and holds nothing. */
  lemma {:induction false} DisabledIsSilent(cfg: Settings, tr: seq<Step>, j: nat)
    requires Run(cfg, tr) && cfg.failMax <= 0 && j < |tr|
    ensures tr[j].out == Verdict(0, false) && tr[j].post == map[]
  {
    StepAt(cfg, tr, j);
    if j > 0 { DisabledIsSilent(cfg, tr, j - 1); }
  }

  // ---------------------------------------------------------------------------
  // What a sweep forgets

  /** Step `i` recorded a failure of `k` that can still matter at `now`. */
  ghost predicate Matters(cfg: Settings, tr: seq<Step>, k: Key, i: nat, now: nat)
    requires i < |tr|
  {
    && tr[i].op == Fail(k)
    && (now - tr[i].now <= cfg.window || (tr[i].out.flag && now < tr[i].now + cfg.lockout))
  }

  /** After a sweep only keys are tracked that failed within the window or hold a lock. */
  lemma SweepForgets(cfg: Settings, tr: seq<Step>, j: nat, k: Key) returns (i: nat)
    requires Run(cfg, tr) && cfg.failMax > 0 && j < |tr| && tr[j].op == Sweep && k in tr[j].post
    ensures i < j && Matters(cfg, tr, k, i, tr[j].now)
  {
    StepAt(cfg, tr, j);
    var v := tr[j].pre[k];
    if tr[j].now < v.lockedUntil {
      i := LockWasEngaged(cfg, tr, k, j, v.lockedUntil);
    } else {
      i := CountsComeFromFailures(cfg, tr, k, j);
    }
  }
}
