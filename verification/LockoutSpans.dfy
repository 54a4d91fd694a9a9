/**
Exactly when a span of failures locks a key (api/shared/authlockout.go:226-279, 422-434): decided
by the failures that still count when the span begins, and by when their window runs out.
*/
module LockoutSpans {
  import opened Lockout
  import opened LockoutRuns

  /** Failures of `k` among the steps lo..hi-1 at or before `deadline`. */
  ghost function FailsBy(tr: seq<Step>, k: Key, lo: nat, hi: nat, deadline: nat): nat
    requires lo <= hi <= |tr|
    decreases hi
  {
    if lo == hi then 0
    else
      FailsBy(tr, k, lo, hi - 1, deadline)
      + (if tr[hi - 1].op == Fail(k) && tr[hi - 1].now <= deadline then 1 else 0)
  }

  /**
  Enough failures for a lock: `c` still counted at the start, `n` follow, `early` of them inside
  the window of the first `c`.  Those that come later count from nothing.
  */
  predicate Reached(cfg: Settings, c: nat, n: nat, early: nat) {
    if c == 0 then n >= cfg.failMax else early >= cfg.failMax - c || n - early >= cfg.failMax
  }

  /** The unlocked entry after `n` failures of a span from `start`; `f` anchors the first `c`. */
  predicate Tally(cfg: Settings, c: nat, f: nat, start: nat, n: nat, early: nat, v: FailState, t: nat) {
    && !Reached(cfg, c, n, early) && early <= n && v.lockedUntil <= t
    && if c == 0 then
         LiveCount(cfg, v, t) == n && (n > 0 ==> start <= v.firstFailure <= t)
       else if n == early then
         || (v.failCount == c + early && v.firstFailure == f)
         || (LiveCount(cfg, v, t) == 0 && f + cfg.window < t)
       else
         v.failCount == n - early && start <= v.firstFailure <= t && f + cfg.window < v.firstFailure
  }

  /** A failure of the key itself. */
  lemma TallyFailure(cfg: Settings, v: FailState, c: nat, f: nat, start: nat, n: nat, early: nat, t: nat, now: nat)
    requires Sound(cfg) && cfg.failMax > 0 && Tally(cfg, c, f, start, n, early, v, t)
    requires start <= t <= now <= start + cfg.window
    ensures var early' := early + if now <= f + cfg.window then 1 else 0;
            var w := Bump(cfg, v, now);
            && (Locked(w, now) <==> Reached(cfg, c, n + 1, early'))
            && (!Locked(w, now) ==> Tally(cfg, c, f, start, n + 1, early', w, now))
  {}

  lemma TallyStep(cfg: Settings, s: Step, k: Key, c: nat, f: nat, start: nat, n: nat, early: nat, t: nat)
    requires Sound(cfg) && cfg.failMax > 0 && ValidStep(cfg, s) && !IsReset(s, k) && !Dropped(s, k)
    requires Tally(cfg, c, f, start, n, early, Get(s.pre, k), t)
    requires start <= t <= s.now <= start + cfg.window
    ensures var n' := n + if s.op == Fail(k) then 1 else 0;
            var early' := early + if s.op == Fail(k) && s.now <= f + cfg.window then 1 else 0;
            && (LockedIn(s.post, k, s.now) <==> Reached(cfg, c, n', early'))
            && (!LockedIn(s.post, k, s.now) ==> Tally(cfg, c, f, start, n', early', Get(s.post, k), s.now))
  {
    match s.op
    case Fail(j) =>
      if j == k {
        FailureOwnKey(cfg, s.pre, k, s.now, s.choice, s.out, s.post);
        TallyFailure(cfg, Get(s.pre, k), c, f, start, n, early, t, s.now);
      } else {
        FailureFrame(cfg, s.pre, j, s.now, s.choice, s.out, s.post, k);
      }
    case Query(_) =>
    case Reset(_) =>
    case Sweep =>
  }

  /** What the span has come to: enough failures, counted from the entry found at its beginning. */
  ghost predicate Earned(cfg: Settings, tr: seq<Step>, k: Key, lo: nat, hi: nat)
    requires lo <= hi <= |tr| && lo < |tr|
  {
    var v := Get(At(tr, lo), k);
    Reached(cfg, LiveCount(cfg, v, tr[lo].now), FailCount(tr, k, lo, hi), FailsBy(tr, k, lo, hi, v.firstFailure + cfg.window))
  }

  /** The time of the last step of a span, or of its first if it is still empty. */
  ghost function LastTime(tr: seq<Step>, lo: nat, hi: nat): nat
    requires lo <= hi <= |tr| && lo < |tr|
  {
    if lo < hi then tr[hi - 1].now else tr[lo].now
  }

  /** The span is locked exactly if it was earned, and until then the entry tallies with its failures. */
  ghost predicate Accounted(cfg: Settings, tr: seq<Step>, k: Key, lo: nat, hi: nat)
    requires lo <= hi <= |tr| && lo < |tr|
  {
    var v := Get(At(tr, lo), k);
    var n, early := FailCount(tr, k, lo, hi), FailsBy(tr, k, lo, hi, v.firstFailure + cfg.window);
    && early <= n
    && (LockedDuring(tr, k, lo, hi) <==> Earned(cfg, tr, k, lo, hi))
    && (!LockedDuring(tr, k, lo, hi) ==>
          Tally(cfg, LiveCount(cfg, v, tr[lo].now), v.firstFailure, tr[lo].now, n, early,
                Get(At(tr, hi), k), LastTime(tr, lo, hi)))
  }

  lemma CountsNext(tr: seq<Step>, k: Key, lo: nat, hi: nat, deadline: nat)
    requires lo <= hi < |tr|
    ensures FailCount(tr, k, lo, hi + 1) == FailCount(tr, k, lo, hi) + if tr[hi].op == Fail(k) then 1 else 0
    ensures FailsBy(tr, k, lo, hi + 1, deadline)
            == FailsBy(tr, k, lo, hi, deadline) + if tr[hi].op == Fail(k) && tr[hi].now <= deadline then 1 else 0
  {}

  lemma SpanNext(cfg: Settings, tr: seq<Step>, k: Key, lo: nat, hi: nat)
    requires Run(cfg, tr) && cfg.failMax > 0 && lo <= hi < |tr|
    requires tr[hi].now - tr[lo].now <= cfg.window
    requires !IsReset(tr[hi], k) && !Dropped(tr[hi], k) && Accounted(cfg, tr, k, lo, hi)
    ensures Accounted(cfg, tr, k, lo, hi + 1)
  {
    LockedDuringNext(tr, k, lo, hi + 1);
    CountsNext(tr, k, lo, hi, Get(At(tr, lo), k).firstFailure + cfg.window);
    if !LockedDuring(tr, k, lo, hi) { UnlockedNext(cfg, tr, k, lo, hi); }
  }

  lemma UnlockedNext(cfg: Settings, tr: seq<Step>, k: Key, lo: nat, hi: nat)
    requires Run(cfg, tr) && cfg.failMax > 0 && lo <= hi < |tr|
    requires tr[hi].now - tr[lo].now <= cfg.window && !IsReset(tr[hi], k) && !Dropped(tr[hi], k)
    requires Accounted(cfg, tr, k, lo, hi) && !LockedDuring(tr, k, lo, hi)
    ensures var v := Get(At(tr, lo), k);
            var c, n := LiveCount(cfg, v, tr[lo].now), FailCount(tr, k, lo, hi + 1);
            var early := FailsBy(tr, k, lo, hi + 1, v.firstFailure + cfg.window);
            && (LockedIn(tr[hi].post, k, tr[hi].now) <==> Reached(cfg, c, n, early))
            && (!LockedIn(tr[hi].post, k, tr[hi].now) ==>
                  Tally(cfg, c, v.firstFailure, tr[lo].now, n, early, Get(At(tr, hi + 1), k), tr[hi].now))
  {
    var v := Get(At(tr, lo), k);
    StepAt(cfg, tr, hi);
    ClockMonotone(cfg, tr, lo, hi);
    if lo < hi { ClockMonotone(cfg, tr, lo, hi - 1); }
    CountsNext(tr, k, lo, hi, v.firstFailure + cfg.window);
    TallyStep(cfg, tr[hi], k, LiveCount(cfg, v, tr[lo].now), v.firstFailure, tr[lo].now,
              FailCount(tr, k, lo, hi), FailsBy(tr, k, lo, hi, v.firstFailure + cfg.window), LastTime(tr, lo, hi));
  }

  lemma {:induction false} SpanExact(cfg: Settings, tr: seq<Step>, k: Key, lo: nat, hi: nat)
    requires Run(cfg, tr) && cfg.failMax > 0 && lo <= hi <= |tr| && lo < |tr|
    requires lo < hi ==> tr[hi - 1].now - tr[lo].now <= cfg.window
    requires Undisturbed(tr, k, lo, hi) && !LockedIn(At(tr, lo), k, tr[lo].now)
    ensures Accounted(cfg, tr, k, lo, hi)
    decreases hi
  {
    if lo == hi {
      ReachableTables(cfg, tr, lo);
      assert k in At(tr, lo) ==> EntryInv(cfg, At(tr, lo)[k]);
    } else {
      StepAt(cfg, tr, hi - 1);
      SpanExact(cfg, tr, k, lo, hi - 1);
      SpanNext(cfg, tr, k, lo, hi - 1);
    }
  }

  lemma LockedDuringNext(tr: seq<Step>, k: Key, lo: nat, hi: nat)
    requires lo < hi <= |tr|
    ensures LockedDuring(tr, k, lo, hi) <==> LockedDuring(tr, k, lo, hi - 1) || LockedIn(tr[hi - 1].post, k, tr[hi - 1].now)
  {}

  /**
  A key that is tracked throughout a span no longer than the window is locked at some moment of it
  if and only if it was locked when the span began, or enough failures fell: with c failures still
  counting at the start, max - c before their window runs out or max after it; with none, max.
  */
  lemma LockExact(cfg: Settings, tr: seq<Step>, k: Key, lo: nat, hi: nat)
    requires Run(cfg, tr) && cfg.failMax > 0 && lo < hi <= |tr|
    requires tr[hi - 1].now - tr[lo].now <= cfg.window
    requires Undisturbed(tr, k, lo, hi)
    ensures LockedDuring(tr, k, lo, hi) <==> LockedIn(At(tr, lo), k, tr[lo].now) || Earned(cfg, tr, k, lo, hi)
  {
    if LockedIn(At(tr, lo), k, tr[lo].now) {
      StepAt(cfg, tr, lo);
      StepKeepsLock(cfg, tr[lo], k, At(tr, lo)[k].lockedUntil);
      assert LockedIn(tr[lo].post, k, tr[lo].now);
    } else {
      SpanExact(cfg, tr, k, lo, hi);
    }
  }
}
