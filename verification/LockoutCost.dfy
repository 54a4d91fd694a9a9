/** What it takes to make the tracker turn a newcomer away (api/shared/authlockout.go:380-389). */
module LockoutCost {
  import opened Lockout
  import opened LockoutRuns

  /** Failures of keys in `ks`, later than `since`, among the first `hi` steps. */
  ghost function Spent(tr: seq<Step>, ks: set<Key>, since: int, hi: nat): nat
    requires hi <= |tr|
  {
    if hi == 0 then 0
    else
      var s := tr[hi - 1];
      Spent(tr, ks, since, hi - 1) + (if s.op.Fail? && s.op.key in ks && s.now > since then 1 else 0)
  }

  lemma {:induction false} SpentSplits(tr: seq<Step>, ks: set<Key>, k: Key, since: int, hi: nat)
    requires hi <= |tr| && k in ks
    ensures Spent(tr, ks, since, hi) == Spent(tr, ks - {k}, since, hi) + Spent(tr, {k}, since, hi)
  {
    if hi > 0 { SpentSplits(tr, ks, k, since, hi - 1); }
  }

  lemma {:induction false} SpentCoversSpan(cfg: Settings, tr: seq<Step>, k: Key, since: int, lo: nat, hi: nat)
    requires Run(cfg, tr) && lo <= hi <= |tr| && lo < |tr| && tr[lo].now > since
    ensures Spent(tr, {k}, since, hi) >= FailCount(tr, k, lo, hi)
    decreases hi
  {
    if lo < hi {
      SpentCoversSpan(cfg, tr, k, since, lo, hi - 1);
      ClockMonotone(cfg, tr, lo, hi - 1);
    }
  }

  lemma {:induction false} SpentGrows(tr: seq<Step>, ks: set<Key>, since: int, lo: nat, hi: nat)
    requires lo <= hi <= |tr|
    ensures Spent(tr, ks, since, lo) <= Spent(tr, ks, since, hi)
    decreases hi
  {
    if lo < hi { SpentGrows(tr, ks, since, lo, hi - 1); }
  }

  /** A lock in force goes back to an engagement, and that to failMax failures, all recent. */
  lemma LockedSince(cfg: Settings, tr: seq<Step>, k: Key, j: nat) returns (lo: nat, e: nat)
    requires Run(cfg, tr) && cfg.failMax > 0 && j < |tr| && LockedIn(tr[j].pre, k, tr[j].now)
    ensures lo <= e < j && FailCount(tr, k, lo, e + 1) == cfg.failMax
    ensures tr[lo].now > tr[j].now - cfg.lockout - cfg.window
  {
    StepAt(cfg, tr, j);
    e := LockWasEngaged(cfg, tr, k, j, tr[j].pre[k].lockedUntil);
    lo := EngagementEarned(cfg, tr, k, e);
  }

  lemma {:induction false} LockedKeyCost(cfg: Settings, tr: seq<Step>, k: Key, j: nat)
    requires Run(cfg, tr) && cfg.failMax > 0 && j < |tr| && LockedIn(tr[j].pre, k, tr[j].now)
    ensures Spent(tr, {k}, tr[j].now - cfg.lockout - cfg.window, j) >= cfg.failMax
  {
    var lo, e := LockedSince(cfg, tr, k, j);
    SpentInSpan(cfg, tr, k, tr[j].now - cfg.lockout - cfg.window, lo, e + 1, j);
  }

  lemma SpentInSpan(cfg: Settings, tr: seq<Step>, k: Key, since: int, lo: nat, mid: nat, hi: nat)
    requires Run(cfg, tr) && lo < mid <= hi <= |tr| && tr[lo].now > since
    ensures Spent(tr, {k}, since, hi) >= FailCount(tr, k, lo, mid)
  {
    SpentCoversSpan(cfg, tr, k, since, lo, mid);
    SpentGrows(tr, {k}, since, mid, hi);
  }

  lemma OneMore(m: int, n: nat)
    ensures m * (n + 1) == m * n + m
  {}

  lemma {:induction false} LockedKeysCost(cfg: Settings, tr: seq<Step>, ks: set<Key>, j: nat)
    requires Run(cfg, tr) && cfg.failMax > 0 && j < |tr|
    requires forall k :: k in ks ==> LockedIn(tr[j].pre, k, tr[j].now)
    ensures Spent(tr, ks, tr[j].now - cfg.lockout - cfg.window, j) >= cfg.failMax * |ks|
  {
    if ks != {} {
      var k :| k in ks;
      LockedKeyCost(cfg, tr, k, j);
      LockedKeysCost(cfg, tr, ks - {k}, j);
      SpentSplits(tr, ks, k, tr[j].now - cfg.lockout - cfg.window, j);
      assert |ks| == |ks - {k}| + 1;
      OneMore(cfg.failMax, |ks - {k}|);
    }
  }

  /**
  Turning one newcomer away costs failMax recorded failures for each of min(64, cap) distinct
  keys, all of them within the last lockout plus window.
  */
  lemma RefusalCost(cfg: Settings, tr: seq<Step>, k: Key, j: nat) returns (ks: set<Key>)
    requires Run(cfg, tr) && cfg.failMax > 0 && j < |tr|
    requires tr[j].op == Fail(k) && k !in tr[j].post
    ensures |ks| == Min(SAMPLE_SIZE, cfg.cap) && k !in ks
    ensures Spent(tr, ks, tr[j].now - cfg.lockout - cfg.window, j) >= cfg.failMax * Min(SAMPLE_SIZE, cfg.cap)
  {
    var s := tr[j];
    StepAt(cfg, tr, j);
    ReachableTables(cfg, tr, j);
    RefusedIffSampleLocked(cfg, s.pre, k, s.now, s.choice, s.out, s.post);
    ks := s.choice.sample;
    LockedKeysCost(cfg, tr, ks, j);
  }
}
