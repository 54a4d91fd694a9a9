/** What every run of the lockout tracker guarantees (api/shared/authlockout.go). */
module LockoutRuns {
  import opened Lockout

  /** How many of the steps lo..hi-1 are failures of key `k`. */
  ghost function FailCount(tr: seq<Step>, k: Key, lo: nat, hi: nat): nat
    requires lo <= hi <= |tr|
    decreases hi
  {
    if lo == hi then 0 else FailCount(tr, k, lo, hi - 1) + (if tr[hi - 1].op == Fail(k) then 1 else 0)
  }

  ghost predicate IsReset(s: Step, k: Key) { s.op == Reset(k) }

  ghost predicate IsEngaged(s: Step, k: Key) { s.op == Fail(k) && s.out.flag }

  /** The key is refused at this step, or evicted to make room for another. */
  ghost predicate Dropped(s: Step, k: Key) {
    s.op.Fail? && k !in s.post && (s.op == Fail(k) || k in s.pre)
  }

  ghost predicate Undisturbed(tr: seq<Step>, k: Key, lo: nat, hi: nat)
    requires hi <= |tr|
  {
    forall i :: lo <= i < hi ==> !IsReset(tr[i], k) && !Dropped(tr[i], k)
  }

  /** The key is locked right after some step of lo..hi-1, at the time of that step. */
  ghost predicate LockedDuring(tr: seq<Step>, k: Key, lo: nat, hi: nat)
    requires hi <= |tr|
  {
    exists i :: lo <= i < hi && LockedIn(tr[i].post, k, tr[i].now)
  }

  lemma StepAt(cfg: Settings, tr: seq<Step>, i: nat)
    requires Run(cfg, tr) && i < |tr|
    ensures ValidStep(cfg, tr[i]) && tr[i].pre == At(tr, i) && tr[i].post == At(tr, i + 1)
    ensures i > 0 ==> tr[i - 1].now <= tr[i].now
  {
    assert Follows(cfg, tr, i);
  }

  lemma {:induction false} ClockMonotone(cfg: Settings, tr: seq<Step>, i: nat, j: nat)
    requires Run(cfg, tr) && i <= j < |tr|
    ensures tr[i].now <= tr[j].now
    decreases j
  {
    if i < j {
      ClockMonotone(cfg, tr, i, j - 1);
      StepAt(cfg, tr, j);
    }
  }

  // ---------------------------------------------------------------------------
  // Every reachable table

  ghost predicate TableInv(cfg: Settings, t: Table) {
    && |t| <= cfg.cap
    && forall k :: k in t ==> EntryInv(cfg, t[k])
  }

  /** A counter is below the threshold, and it starts only once the last lock has run out. */
  ghost predicate EntryInv(cfg: Settings, v: FailState) {
    v.failCount == 0 || (v.failCount < cfg.failMax && v.lockedUntil <= v.firstFailure)
  }

  lemma SweptSize(cfg: Settings, t: Table, now: nat)
    ensures |Swept(cfg, t, now)| <= |t|
  {
    SubsetSize(Swept(cfg, t, now).Keys, t.Keys);
  }

  lemma StepKeepsInv(cfg: Settings, s: Step)
    requires Sound(cfg) && ValidStep(cfg, s) && TableInv(cfg, s.pre)
    ensures TableInv(cfg, s.post)
  {
    match s.op
    case Fail(k) =>
      FailureKeepsCap(cfg, s.pre, k, s.now, s.choice, s.out, s.post);
      if cfg.failMax > 0 {
        FailureOwnKey(cfg, s.pre, k, s.now, s.choice, s.out, s.post);
        forall j | j in s.post && j != k
          ensures EntryInv(cfg, s.post[j])
        {
          FailureFrame(cfg, s.pre, k, s.now, s.choice, s.out, s.post, j);
        }
      }
    case Query(_) =>
    case Reset(k) => SubsetSize(s.post.Keys, s.pre.Keys);
    case Sweep => SweptSize(cfg, s.pre, s.now);
  }

  /** In every run the map never exceeds its cap and no counter reaches the threshold. */
  lemma {:induction false} ReachableTables(cfg: Settings, tr: seq<Step>, i: nat)
    requires Run(cfg, tr) && i <= |tr|
    ensures TableInv(cfg, At(tr, i))
  {
    if i > 0 {
      ReachableTables(cfg, tr, i - 1);
      StepAt(cfg, tr, i - 1);
      StepKeepsInv(cfg, tr[i - 1]);
    }
  }

  // ---------------------------------------------------------------------------
  // 2M - 2 failures in one window force a lock

  /** What is known of an unlocked key after `n` failures of a span that began at `start`. */
  ghost predicate SpanInv(cfg: Settings, v: FailState, start: nat, n: nat) {
    || (v.failCount == 0 && n <= cfg.failMax - 2)
    || (1 <= v.failCount < cfg.failMax && n < v.failCount)
    || (1 <= v.failCount < cfg.failMax && start <= v.firstFailure && n <= cfg.failMax - 2 + v.failCount)
  }

  lemma SpanStep(cfg: Settings, s: Step, k: Key, start: nat, n: nat)
    requires Sound(cfg) && cfg.failMax >= 2 && ValidStep(cfg, s)
    requires start <= s.now && s.now - start <= cfg.window
    requires !IsReset(s, k) && !Dropped(s, k) && !LockedIn(s.post, k, s.now)
    requires SpanInv(cfg, Get(s.pre, k), start, n)
    ensures SpanInv(cfg, Get(s.post, k), start, if s.op == Fail(k) then n + 1 else n)
  {}

  lemma {:induction false} SpanInvariant(cfg: Settings, tr: seq<Step>, k: Key, lo: nat, hi: nat)
    requires Run(cfg, tr) && cfg.failMax >= 2 && lo <= hi <= |tr| && lo < |tr|
    requires lo < hi ==> tr[hi - 1].now - tr[lo].now <= cfg.window
    requires Undisturbed(tr, k, lo, hi)
    requires !LockedDuring(tr, k, lo, hi)
    ensures SpanInv(cfg, Get(At(tr, hi), k), tr[lo].now, FailCount(tr, k, lo, hi))
    decreases hi
  {
    if lo == hi {
      ReachableTables(cfg, tr, lo);
    } else {
      assert !LockedIn(tr[hi - 1].post, k, tr[hi - 1].now);
      ClockMonotone(cfg, tr, lo, hi - 1);
      StepAt(cfg, tr, hi - 1);
      SpanInvariant(cfg, tr, k, lo, hi - 1);
      SpanStep(cfg, tr[hi - 1], k, tr[lo].now, FailCount(tr, k, lo, hi - 1));
    }
  }

  /**
  2 * failMax - 2 failures of a key within one failure window have it locked at some moment of
  that span, whatever else happens, unless the key is reset, evicted or refused meanwhile.
  */
  lemma LockForced(cfg: Settings, tr: seq<Step>, k: Key, lo: nat, hi: nat)
    requires Run(cfg, tr) && cfg.failMax >= 2 && lo < hi <= |tr|
    requires tr[hi - 1].now - tr[lo].now <= cfg.window
    requires Undisturbed(tr, k, lo, hi)
    requires FailCount(tr, k, lo, hi) >= 2 * cfg.failMax - 2
    ensures LockedDuring(tr, k, lo, hi)
  {
    if !LockedDuring(tr, k, lo, hi) {
      SpanInvariant(cfg, tr, k, lo, hi);
      assert false;
    }
  }

  lemma RunSnoc(cfg: Settings, tr: seq<Step>, s: Step)
    requires Run(cfg, tr) && ValidStep(cfg, s) && s.pre == At(tr, |tr|)
    requires |tr| > 0 ==> tr[|tr| - 1].now <= s.now
    ensures Run(cfg, tr + [s]) && At(tr + [s], |tr| + 1) == s.post
  {
    var tr' := tr + [s];
    forall i | 0 <= i < |tr'|
      ensures Follows(cfg, tr', i)
    {
      if i < |tr| {
        StepAt(cfg, tr, i);
        assert tr'[i] == tr[i] && At(tr', i) == At(tr, i);
      }
    }
  }

  /** The step that counts one failure without engaging a lock, with only `k` tracked. */
  ghost function CountedFailure(cfg: Settings, t: Table, k: Key, now: nat): (s: Step)
    requires Sound(cfg) && t.Keys <= {k} && !LockedIn(t, k, now)
    requires LiveCount(cfg, Get(t, k), now) + 1 < cfg.failMax
    ensures ValidStep(cfg, s) && s.pre == t && s.op == Fail(k) && s.now == now
    ensures s.post.Keys == {k} && !LockedIn(s.post, k, now)
    ensures LiveCount(cfg, s.post[k], now) == s.post[k].failCount == LiveCount(cfg, Get(t, k), now) + 1
    ensures s.post[k].firstFailure == if LiveCount(cfg, Get(t, k), now) == 0 then now else Get(t, k).firstFailure
    ensures s.post[k].lockedUntil == Get(t, k).lockedUntil
  {
    assert |t| < cfg.cap || k in t by { if k !in t { assert t.Keys == {}; assert |t| == |t.Keys|; } }
    var v := Get(t, k);
    Step(t, Fail(k), now, Choice({}, []), BumpVerdict(cfg, v, now), t[k := Bump(cfg, v, now)])
  }

  /** `tr'` extends `tr` by failures of `k` at `now`, none of which leaves it locked or untracked. */
  ghost predicate ExtendsByFailures(cfg: Settings, tr: seq<Step>, tr': seq<Step>, k: Key, now: nat) {
    && Run(cfg, tr') && tr <= tr'
    && forall i :: |tr| <= i < |tr'| ==>
         tr'[i].op == Fail(k) && tr'[i].now == now && k in tr'[i].post && !LockedIn(tr'[i].post, k, now)
  }

  /** `n` more failures of `k` at time `now`, none of which engages a lock. */
  lemma {:induction false} MoreFailures(cfg: Settings, tr: seq<Step>, k: Key, now: nat, n: nat) returns (tr': seq<Step>)
    requires Run(cfg, tr)
    requires |tr| > 0 ==> tr[|tr| - 1].now <= now
    requires At(tr, |tr|).Keys <= {k} && !LockedIn(At(tr, |tr|), k, now)
    requires LiveCount(cfg, Get(At(tr, |tr|), k), now) + n < cfg.failMax
    ensures ExtendsByFailures(cfg, tr, tr', k, now) && |tr'| == |tr| + n
    ensures n > 0 ==> At(tr', |tr'|).Keys == {k}
    ensures n > 0 ==> var v, w := Get(At(tr, |tr|), k), At(tr', |tr'|)[k];
                      && w.failCount == LiveCount(cfg, v, now) + n
                      && w.firstFailure == (if LiveCount(cfg, v, now) == 0 then now else v.firstFailure)
                      && w.lockedUntil == v.lockedUntil
    decreases n
  {
    if n == 0 {
      tr' := tr;
    } else {
      var s := CountedFailure(cfg, At(tr, |tr|), k, now);
      RunSnoc(cfg, tr, s);
      tr' := MoreFailures(cfg, tr + [s], k, now, n - 1);
      assert tr'[|tr|] == (tr + [s])[|tr|];
    }
  }

  lemma {:induction false} AllFailuresCounted(cfg: Settings, tr: seq<Step>, tr': seq<Step>, k: Key, now: nat, hi: nat)
    requires ExtendsByFailures(cfg, tr, tr', k, now) && |tr| <= hi <= |tr'|
    ensures FailCount(tr', k, |tr|, hi) == hi - |tr|
    decreases hi
  {
    if |tr| < hi { AllFailuresCounted(cfg, tr, tr', k, now, hi - 1); }
  }

  lemma {:induction false} FailCountSplit(tr: seq<Step>, k: Key, lo: nat, mid: nat, hi: nat)
    requires lo <= mid <= hi <= |tr|
    ensures FailCount(tr, k, lo, hi) == FailCount(tr, k, lo, mid) + FailCount(tr, k, mid, hi)
    decreases hi
  {
    if mid < hi { FailCountSplit(tr, k, lo, mid, hi - 1); }
  }

  lemma {:induction false} FailCountPrefix(tr: seq<Step>, tr': seq<Step>, k: Key, lo: nat, hi: nat)
    requires lo <= hi <= |tr| && tr <= tr'
    ensures FailCount(tr', k, lo, hi) == FailCount(tr, k, lo, hi)
    decreases hi
  {
    if lo < hi {
      FailCountPrefix(tr, tr', k, lo, hi - 1);
      assert tr'[hi - 1] == tr[hi - 1];
    }
  }

  /** The bound is tight: some run has 2 * failMax - 3 failures in such a span and is never locked in it. */
  lemma LockBoundTight(cfg: Settings, k: Key) returns (tr: seq<Step>, lo: nat)
    requires Sound(cfg) && cfg.failMax >= 2
    ensures Run(cfg, tr) && lo < |tr|
    ensures tr[|tr| - 1].now - tr[lo].now <= cfg.window
    ensures Undisturbed(tr, k, lo, |tr|)
    ensures FailCount(tr, k, lo, |tr|) == 2 * cfg.failMax - 3
    ensures !LockedDuring(tr, k, lo, |tr|)
  {
    var first := MoreFailures(cfg, [], k, 1, 1);
    lo := |first|;
    var second := MoreFailures(cfg, first, k, 1 + cfg.window, cfg.failMax - 2);
    tr := MoreFailures(cfg, second, k, 2 + cfg.window, cfg.failMax - 1);
    AllFailuresCounted(cfg, first, second, k, 1 + cfg.window, |second|);
    AllFailuresCounted(cfg, second, tr, k, 2 + cfg.window, |tr|);
    FailCountSplit(tr, k, lo, |second|, |tr|);
    FailCountPrefix(second, tr, k, lo, |second|);
    assert forall i :: lo <= i < |second| ==> tr[i] == second[i];
  }

  // ---------------------------------------------------------------------------
  // A lock in force is never lost, moved or extended

  lemma StepKeepsLock(cfg: Settings, s: Step, k: Key, deadline: nat)
    requires ValidStep(cfg, s) && cfg.failMax > 0
    requires k in s.pre && s.pre[k].lockedUntil == deadline && s.now < deadline && !IsReset(s, k)
    ensures k in s.post && s.post[k] == s.pre[k]
    ensures s.op == Fail(k) ==> s.out == Verdict(deadline, false)
    ensures s.op == Query(k) ==> s.out == Verdict(deadline, true)
  {}

  /** What an engaging step leaves behind. */
  lemma EngagedEntry(cfg: Settings, tr: seq<Step>, k: Key, e: nat)
    requires Run(cfg, tr) && e < |tr| && IsEngaged(tr[e], k)
    ensures cfg.failMax > 0 && k in tr[e].post
    ensures tr[e].out.until == tr[e].post[k].lockedUntil == tr[e].now + cfg.lockout
    ensures tr[e].post[k].failCount == 0
  {
    StepAt(cfg, tr, e);
    if cfg.failMax > 0 {
      FailureOwnKey(cfg, tr[e].pre, k, tr[e].now, tr[e].choice, tr[e].out, tr[e].post);
    }
  }

  lemma {:induction false} LockCarries(cfg: Settings, tr: seq<Step>, k: Key, e: nat, j: nat)
    requires Run(cfg, tr) && e < j < |tr| && IsEngaged(tr[e], k)
    requires tr[j].now < tr[e].out.until
    requires forall i :: e < i < j ==> !IsReset(tr[i], k)
    ensures k in tr[j].pre && tr[j].pre[k].lockedUntil == tr[e].out.until
    decreases j
  {
    EngagedEntry(cfg, tr, k, e);
    StepAt(cfg, tr, j);
    if e + 1 < j {
      LockCarries(cfg, tr, k, e, j - 1);
      StepAt(cfg, tr, j - 1);
      StepKeepsLock(cfg, tr[j - 1], k, tr[e].out.until);
    }
  }

  /**
  Once a lock engages, every later question before its deadline gets that same deadline and no
  further failure moves it, whatever else runs: floods at the cap, evictions, sweeps, more
  failures of the same key.  Only a Reset of the key ends it early.
  */
  lemma LockPersists(cfg: Settings, tr: seq<Step>, k: Key, e: nat, j: nat)
    requires Run(cfg, tr) && e < j < |tr| && IsEngaged(tr[e], k)
    requires tr[j].now < tr[e].now + cfg.lockout
    requires forall i :: e < i <= j ==> !IsReset(tr[i], k)
    ensures tr[e].out.until == tr[e].now + cfg.lockout
    ensures LockedIn(tr[j].post, k, tr[j].now) && tr[j].post[k].lockedUntil == tr[e].out.until
    ensures tr[j].op == Query(k) ==> tr[j].out == Verdict(tr[e].out.until, true)
    ensures tr[j].op == Fail(k) ==> tr[j].out == Verdict(tr[e].out.until, false)
  {
    EngagedEntry(cfg, tr, k, e);
    LockCarries(cfg, tr, k, e, j);
    StepAt(cfg, tr, j);
    StepKeepsLock(cfg, tr[j], k, tr[e].out.until);
  }

  /** Two engagements of one key with no Reset between them are at least one lockout apart. */
  lemma EngagementsApart(cfg: Settings, tr: seq<Step>, k: Key, e: nat, j: nat)
    requires Run(cfg, tr) && e < j < |tr| && IsEngaged(tr[e], k) && IsEngaged(tr[j], k)
    requires forall i :: e < i < j ==> !IsReset(tr[i], k)
    ensures tr[j].now >= tr[e].now + cfg.lockout
  {
    if tr[j].now < tr[e].now + cfg.lockout {
      LockPersists(cfg, tr, k, e, j);
      assert false;
    }
  }

  // ---------------------------------------------------------------------------
  // A lock engages only on failMax failures inside one window

  /** Since step `lo`, which was the anchoring failure, `n` failures and neither Reset nor lock. */
  ghost predicate Anchored(tr: seq<Step>, k: Key, v: FailState, lo: nat, hi: nat) {
    && lo < hi <= |tr|
    && tr[lo].op == Fail(k) && tr[lo].now == v.firstFailure
    && FailCount(tr, k, lo, hi) == v.failCount
    && forall i :: lo <= i < hi ==> !IsReset(tr[i], k) && !IsEngaged(tr[i], k)
  }

  lemma AnchorHolds(tr: seq<Step>, k: Key, v: FailState, w: FailState, lo: nat, hi: nat)
    requires Anchored(tr, k, v, lo, hi) && hi < |tr| && !IsReset(tr[hi], k) && !IsEngaged(tr[hi], k)
    requires w.firstFailure == v.firstFailure
    requires w.failCount == v.failCount + if tr[hi].op == Fail(k) then 1 else 0
    ensures Anchored(tr, k, w, lo, hi + 1)
  {}

  lemma AnchorSet(tr: seq<Step>, k: Key, w: FailState, hi: nat)
    requires hi < |tr| && tr[hi].op == Fail(k) && !IsEngaged(tr[hi], k)
    requires w.failCount == 1 && w.firstFailure == tr[hi].now
    ensures Anchored(tr, k, w, hi, hi + 1)
  {}

  /** A positive counter was either started by this very step or carried over by it. */
  lemma CounterStep(cfg: Settings, s: Step, k: Key)
    requires ValidStep(cfg, s) && cfg.failMax > 0
    requires k in s.post && s.post[k].failCount > 0
    requires k in s.pre && s.pre[k].failCount > 0 ==> !Locked(s.pre[k], s.now)
    ensures !IsReset(s, k) && !IsEngaged(s, k)
    ensures || (s.op == Fail(k) && s.post[k].failCount == 1 && s.post[k].firstFailure == s.now)
            || (k in s.pre && s.pre[k].failCount > 0 && s.post[k].firstFailure == s.pre[k].firstFailure
                && s.post[k].failCount == s.pre[k].failCount + if s.op == Fail(k) then 1 else 0)
  {}

  lemma {:induction false} CountsComeFromFailures(cfg: Settings, tr: seq<Step>, k: Key, hi: nat) returns (lo: nat)
    requires Run(cfg, tr) && hi <= |tr| && cfg.failMax > 0
    requires k in At(tr, hi) && At(tr, hi)[k].failCount > 0
    ensures Anchored(tr, k, At(tr, hi)[k], lo, hi)
    decreases hi
  {
    var s := tr[hi - 1];
    StepAt(cfg, tr, hi - 1);
    lo := hi - 1;
    if k in s.pre && s.pre[k].failCount > 0 {
      lo := CountsComeFromFailures(cfg, tr, k, hi - 1);
      CounterUnlocked(cfg, tr, k, lo, hi - 1);
    }
    CounterStep(cfg, s, k);
    if s.op == Fail(k) && s.post[k].failCount == 1 && s.post[k].firstFailure == s.now {
      lo := hi - 1;
      AnchorSet(tr, k, s.post[k], hi - 1);
    } else {
      AnchorHolds(tr, k, s.pre[k], s.post[k], lo, hi - 1);
    }
  }

  lemma CounterUnlocked(cfg: Settings, tr: seq<Step>, k: Key, lo: nat, hi: nat)
    requires Run(cfg, tr) && hi < |tr| && k in tr[hi].pre && tr[hi].pre[k].failCount > 0
    requires Anchored(tr, k, tr[hi].pre[k], lo, hi)
    ensures !Locked(tr[hi].pre[k], tr[hi].now)
  {
    StepAt(cfg, tr, hi);
    ReachableTables(cfg, tr, hi);
    ClockMonotone(cfg, tr, lo, hi);
    assert EntryInv(cfg, tr[hi].pre[k]);
  }

  /**
  Every engagement is earned: it is the failMax-th failure of its key since some failure at most
  one window earlier, with no lock and no Reset of that key in between.
  */
  lemma EngagementEarned(cfg: Settings, tr: seq<Step>, k: Key, e: nat) returns (lo: nat)
    requires Run(cfg, tr) && e < |tr| && IsEngaged(tr[e], k)
    ensures lo <= e && tr[lo].op == Fail(k) && tr[e].now - tr[lo].now <= cfg.window
    ensures FailCount(tr, k, lo, e + 1) == cfg.failMax
    ensures forall i :: lo <= i < e ==> !IsReset(tr[i], k) && !IsEngaged(tr[i], k)
  {
    var s := tr[e];
    EngagedEntry(cfg, tr, k, e);
    StepAt(cfg, tr, e);
    FailureOwnKey(cfg, s.pre, k, s.now, s.choice, s.out, s.post);
    if LiveCount(cfg, Get(s.pre, k), s.now) == 0 {
      lo := e;
      assert FailCount(tr, k, e, e + 1) == FailCount(tr, k, e, e) + 1;
    } else {
      lo := CountsComeFromFailures(cfg, tr, k, e);
      ReachableTables(cfg, tr, e);
      assert EntryInv(cfg, s.pre[k]);
    }
  }

  // ---------------------------------------------------------------------------
  // Where a lock comes from

  /** The engagement behind a deadline; the key has not been reset since. */
  lemma {:induction false} LockWasEngaged(cfg: Settings, tr: seq<Step>, k: Key, hi: nat, deadline: nat) returns (e: nat)
    requires Run(cfg, tr) && cfg.failMax > 0 && hi <= |tr| && deadline > 0
    requires k in At(tr, hi) && At(tr, hi)[k].lockedUntil == deadline
    ensures e < hi && IsEngaged(tr[e], k) && tr[e].now + cfg.lockout == deadline
    ensures forall i :: e < i < hi ==> !IsReset(tr[i], k)
    decreases hi
  {
    StepAt(cfg, tr, hi - 1);
    DeadlineStep(cfg, tr[hi - 1], k);
    if IsEngaged(tr[hi - 1], k) {
      e := hi - 1;
    } else {
      e := LockWasEngaged(cfg, tr, k, hi - 1, deadline);
    }
  }

  /** A deadline found after a step was set by it or was there before it. */
  lemma DeadlineStep(cfg: Settings, s: Step, k: Key)
    requires ValidStep(cfg, s) && cfg.failMax > 0 && k in s.post && s.post[k].lockedUntil > 0
    ensures !IsReset(s, k)
    ensures if IsEngaged(s, k) then s.post[k].lockedUntil == s.now + cfg.lockout
            else k in s.pre && s.post[k].lockedUntil == s.pre[k].lockedUntil
  {
    if s.op == Fail(k) {
      FailureOwnKey(cfg, s.pre, k, s.now, s.choice, s.out, s.post);
    } else if s.op.Fail? {
      FailureFrame(cfg, s.pre, s.op.key, s.now, s.choice, s.out, s.post, k);
    }
  }
}
