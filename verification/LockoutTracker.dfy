/** The tracker itself: a map updated in place, with the run it has lived through as ghost history. */
module LockoutTracker {
  import opened Durations
  import opened Lockout
  import opened LockoutAnswers
  import opened LockoutRuns

  const DEFAULT_LOCKOUT: nat := 15 * 60 * SECOND
  const DEFAULT_FAIL_WINDOW: nat := 10 * 60 * SECOND
  const MAX_TRACKED_IDENTITIES: nat := 250_000

  class AuthLockout {
    const cfg: Settings
    const normalise: Key -> Key
    var states: Table
    ghost var history: seq<Step>

    /** The tracker's state is always the end of a legal run. */
    ghost predicate Valid()
      reads this
    {
      Run(cfg, history) && states == At(history, |history|)
    }

    ghost predicate NotBefore(now: nat)
      reads this
    {
      |history| > 0 ==> history[|history| - 1].now <= now
    }

    /** Unset or negative settings fall back to the defaults: only failMax can switch the control off. */
    constructor (failMax: int, lockout: int, window: int, maxTracked: int, normalise: Key -> Key)
      ensures Valid() && history == [] && this.normalise == normalise
      ensures cfg.failMax == failMax
      ensures cfg.lockout == if lockout <= 0 then 900 * SECOND else lockout
      ensures cfg.window == if window <= 0 then 600 * SECOND else window
      ensures cfg.cap == if maxTracked <= 0 then 250_000 else maxTracked
    {
      cfg := Settings(
        failMax,
        if lockout <= 0 then DEFAULT_LOCKOUT else lockout,
        if window <= 0 then DEFAULT_FAIL_WINDOW else window,
        if maxTracked <= 0 then MAX_TRACKED_IDENTITIES else maxTracked);
      this.normalise := normalise;
      states := map[];
      history := [];
    }

    ghost method Log(s: Step)
      requires Run(cfg, history) && ValidStep(cfg, s) && s.pre == At(history, |history|) && s.post == states
      requires NotBefore(s.now)
      modifies this`history
      ensures Valid() && history == old(history) + [s]
    {
      RunSnoc(cfg, history, s);
      history := history + [s];
    }

    /** Looks at no more than SAMPLE_SIZE entries, in any order, and drops at most one. */
    method EvictOne(now: nat) returns (evicted: bool, visited: nat, ghost choice: Choice)
      modifies this`states
      ensures Evicts(old(states), now, choice, evicted, states)
      ensures visited == Min(65, |old(states)|)
      ensures choice.sample <= old(states).Keys && |choice.sample| == Min(64, |old(states)|)
      ensures evicted <==> exists k :: k in choice.sample && old(states)[k].lockedUntil <= now
      ensures evicted ==>
                && choice.victim in choice.sample && states == old(states) - {choice.victim}
                && forall k :: k in choice.sample && old(states)[k].lockedUntil <= now
                               ==> old(states)[choice.victim].failCount <= old(states)[k].failCount
    {
      var remaining := states.Keys;
      ghost var sample: set<Key> := {};
      var victim, lowest, found := [], 0, false;
      visited := 0;
      while remaining != {}
        invariant remaining !! sample && remaining + sample == states.Keys
        invariant visited == |sample| <= SAMPLE_SIZE
        invariant found ==> IsVictim(states, sample, now, victim) && lowest == states[victim].failCount
        invariant !found ==> AllLocked(states, sample, now)
        decreases |remaining|
      {
        var key :| key in remaining;
        visited := visited + 1;
        if visited > SAMPLE_SIZE {
          assert key !in sample;
          SubsetSize(sample + {key}, states.Keys);
          break;
        }
        remaining, sample := remaining - {key}, sample + {key};
        var v := states[key];
        if now < v.lockedUntil {
          continue;
        }
        if !found || v.failCount < lowest {
          victim, lowest, found := key, v.failCount, true;
        }
      }
      choice := Choice(sample, victim);
      assert remaining == {} ==> sample == states.Keys;
      if !found {
        return false, visited, choice;
      }
      states := states - {victim};
      return true, visited, choice;
    }

    /** Finds or makes an entry for `key`; at capacity that may take an eviction, which may fail. */
    method Track(key: Key, now: nat) returns (tracked: bool, ghost choice: Choice)
      requires cfg.failMax > 0
      modifies this`states
      ensures tracked <==> key in states
      ensures !tracked ==> Fails(cfg, old(states), key, now, choice, NOTHING, states)
      ensures tracked ==>
                var v := Get(old(states), key);
                && states[key] == v
                && Fails(cfg, old(states), key, now, choice, BumpVerdict(cfg, v, now), states[key := Bump(cfg, v, now)])
    {
      choice := Choice({}, []);
      if key in states {
        return true, choice;
      }
      ghost var pre := states;
      if |states| >= cfg.cap {
        var evicted, visited;
        evicted, visited, choice := EvictOne(now);
        if !evicted {
          return false, choice;
        }
      }
      ghost var room := states;
      states := states[key := FRESH];
      assert states[key := Bump(cfg, FRESH, now)] == room[key := Bump(cfg, FRESH, now)];
      return true, choice;
    }

    /** Records one failed attempt; `out.flag` is true exactly on the call that engages a lock. */
    method RecordFailure(identity: Key, ip: Key, now: nat) returns (out: Verdict)
      requires Valid() && NotBefore(now)
      modifies this`states, this`history
      ensures Valid()
      ensures |history| == |old(history)| + 1 && old(history) <= history
      ensures var s := history[|history| - 1];
              s.op == Fail(LockoutKey(normalise, identity, ip)) && s.now == now && s.out == out
      ensures out == Verdict(0, false) || out == Verdict(now + cfg.lockout, true)
              || (!out.flag && LockStands(cfg, history, LockoutKey(normalise, identity, ip), |old(history)|))
    {
      var key := LockoutKey(normalise, identity, ip);
      ghost var pre := states;
      ghost var choice := Choice({}, []);
      out := NOTHING;
      if cfg.failMax > 0 {
        var tracked;
        tracked, choice := Track(key, now);
        if tracked {
          out := Count(key, now);
        }
      }
      Log(Step(pre, Fail(key), now, choice, out, states));
      if cfg.failMax > 0 {
        FailureExact(cfg, history, key, |history| - 1);
      } else {
        DisabledIsSilent(cfg, history, |history| - 1);
      }
    }

    /** Counts a failure on the tracked entry and engages the lock at the threshold. */
    method Count(key: Key, now: nat) returns (out: Verdict)
      requires key in states && cfg.failMax > 0
      modifies this`states
      ensures states == old(states)[key := Bump(cfg, old(states[key]), now)]
      ensures out == BumpVerdict(cfg, old(states[key]), now)
    {
      var v := states[key];
      if now < v.lockedUntil {
        return Verdict(v.lockedUntil, false);
      }
      if v.failCount > 0 && now - v.firstFailure > cfg.window {
        v := v.(failCount := 0);
      }
      if v.failCount == 0 {
        v := v.(firstFailure := now);
      }
      v := v.(failCount := v.failCount + 1);
      out := NOTHING;
      if v.failCount >= cfg.failMax {
        v := v.(lockedUntil := now + cfg.lockout, failCount := 0);
        out := Verdict(v.lockedUntil, true);
      }
      states := states[key := v];
    }

    /** The deadline of the lock in force, if any. */
    method LockedUntil(identity: Key, ip: Key, now: nat) returns (out: Verdict)
      requires Valid() && NotBefore(now)
      modifies this`history
      ensures Valid()
      ensures |history| == |old(history)| + 1 && old(history) <= history
      ensures var s := history[|history| - 1];
              s.op == Query(LockoutKey(normalise, identity, ip)) && s.now == now && s.out == out
      ensures out.flag <==>
                cfg.failMax > 0 && LockStands(cfg, history, LockoutKey(normalise, identity, ip), |old(history)|)
      ensures !out.flag ==> out.until == 0
    {
      var key := LockoutKey(normalise, identity, ip);
      if cfg.failMax <= 0 || key !in states {
        out := NOTHING;
      } else if now < states[key].lockedUntil {
        out := Verdict(states[key].lockedUntil, true);
      } else {
        out := NOTHING;
      }
      Log(Step(states, Query(key), now, Choice({}, []), out, states));
      if cfg.failMax > 0 { QueryExact(cfg, history, key, |history| - 1); }
    }

    /** Forgets the key after a successful authentication, an active lock included. */
    method Reset(identity: Key, ip: Key, ghost now: nat)
      requires Valid() && NotBefore(now)
      modifies this`states, this`history
      ensures Valid()
      ensures |history| == |old(history)| + 1 && old(history) <= history
      ensures var s := history[|history| - 1];
              s.op == Op.Reset(LockoutKey(normalise, identity, ip)) && s.now == now
    {
      var key := LockoutKey(normalise, identity, ip);
      ghost var pre := states;
      states := states - {key};
      Log(Step(pre, Op.Reset(key), now, Choice({}, []), NOTHING, states));
    }

    /** Drops every entry that is neither locked nor inside its failure window. */
    method Sweep(now: nat)
      requires Valid() && NotBefore(now)
      modifies this`states, this`history
      ensures Valid()
      ensures |history| == |old(history)| + 1 && old(history) <= history
      ensures var s := history[|history| - 1]; s.op == Op.Sweep && s.now == now
    {
      ghost var pre := states;
      var remaining := states.Keys;
      while remaining != {}
        modifies this`states
        invariant remaining <= states.Keys <= pre.Keys
        invariant forall k :: k in pre && k !in remaining ==> (k in states <==> Kept(cfg, pre[k], now))
        invariant forall k :: k in states ==> states[k] == pre[k]
        decreases |remaining|
      {
        var key :| key in remaining;
        remaining := remaining - {key};
        var v := states[key];
        if now < v.lockedUntil {
          continue;
        }
        if v.failCount > 0 && now - v.firstFailure <= cfg.window {
          continue;
        }
        states := states - {key};
      }
      assert states == Swept(cfg, pre, now);
      Log(Step(pre, Op.Sweep, now, Choice({}, []), NOTHING, states));
    }
  }
}
