/**
The auth-failure lockout tracker as a transition system (api/shared/authlockout.go).

Times are nanoseconds since the zero `time.Time`, so 0 is the zero time and no
clock reading lies before it.  Every operation is one atomic step.
*/
module Lockout {
  newtype byte = x: int | 0 <= x < 256
  type Key = seq<byte>

  const SAMPLE_SIZE: nat := 64
  const MAX_IDENTITY_LEN: nat := 254

  /** The effective settings, after the guards of the constructor. */
  datatype Settings = Settings(failMax: int, lockout: nat, window: nat, cap: nat)

  datatype FailState = FailState(failCount: nat, firstFailure: nat, lockedUntil: nat)

  type Table = map<Key, FailState>

  /** A (deadline, flag) answer; the zero deadline and false mean "nothing to report". */
  datatype Verdict = Verdict(until: nat, flag: bool)

  const NOTHING := Verdict(0, false)
  const FRESH := FailState(0, 0, 0)

  predicate Sound(cfg: Settings) {
    cfg.lockout > 0 && cfg.window > 0 && cfg.cap > 0
  }

  predicate Locked(v: FailState, now: nat) {
    now < v.lockedUntil
  }

  /** Failures that still count at `now`: those anchored inside the window. */
  function LiveCount(cfg: Settings, v: FailState, now: nat): nat {
    if v.failCount > 0 && now - v.firstFailure > cfg.window then 0 else v.failCount
  }

  /** What one more failure does to an entry that is being tracked. */
  function Bump(cfg: Settings, v: FailState, now: nat): FailState {
    if Locked(v, now) then v
    else
      var c := LiveCount(cfg, v, now);
      var anchor := if c == 0 then now else v.firstFailure;
      if c + 1 >= cfg.failMax then FailState(0, anchor, now + cfg.lockout)
      else FailState(c + 1, anchor, v.lockedUntil)
  }

  /** The answer RecordFailure gives for an entry that is being tracked. */
  function BumpVerdict(cfg: Settings, v: FailState, now: nat): Verdict {
    if Locked(v, now) then Verdict(v.lockedUntil, false)
    else if LiveCount(cfg, v, now) + 1 >= cfg.failMax then Verdict(now + cfg.lockout, true)
    else NOTHING
  }

  function Get(t: Table, k: Key): FailState {
    if k in t then t[k] else FRESH
  }

  predicate LockedIn(t: Table, k: Key, now: nat) {
    Locked(Get(t, k), now)
  }

  function Min(a: int, b: int): int {
    if a <= b then a else b
  }

  /** Any set of entries that a map iteration cut off after SAMPLE_SIZE may have looked at. */
  predicate IsSample(t: Table, sample: set<Key>) {
    sample <= t.Keys && |sample| == Min(SAMPLE_SIZE, |t|)
  }

  predicate AllLocked(t: Table, sample: set<Key>, now: nat)
    requires sample <= t.Keys
  {
    forall k :: k in sample ==> Locked(t[k], now)
  }

  predicate IsVictim(t: Table, sample: set<Key>, now: nat, victim: Key)
    requires sample <= t.Keys
  {
    && victim in sample
    && !Locked(t[victim], now)
    && forall k :: k in sample && !Locked(t[k], now) ==> t[victim].failCount <= t[k].failCount
  }

  /** What a map iteration happened to look at, and the entry it dropped. */
  datatype Choice = Choice(sample: set<Key>, victim: Key)

  /** Eviction: an unlocked entry of least failure count in the sample goes, if there is one. */
  predicate Evicts(t: Table, now: nat, c: Choice, evicted: bool, t': Table) {
    && IsSample(t, c.sample)
    && if AllLocked(t, c.sample, now) then !evicted && t' == t
       else evicted && IsVictim(t, c.sample, now, c.victim) && t' == t - {c.victim}
  }

  predicate Fails(cfg: Settings, t: Table, k: Key, now: nat, c: Choice, out: Verdict, t': Table) {
    if cfg.failMax <= 0 then t' == t && out == NOTHING
    else if k in t || |t| < cfg.cap then
      t' == t[k := Bump(cfg, Get(t, k), now)] && out == BumpVerdict(cfg, Get(t, k), now)
    else if Evicts(t, now, c, false, t') then out == NOTHING
    else
      && Evicts(t, now, c, true, t - {c.victim})
      && t' == (t - {c.victim})[k := Bump(cfg, FRESH, now)]
      && out == BumpVerdict(cfg, FRESH, now)
  }

  function Answer(cfg: Settings, t: Table, k: Key, now: nat): Verdict {
    if cfg.failMax > 0 && LockedIn(t, k, now) then Verdict(Get(t, k).lockedUntil, true) else NOTHING
  }

  /** An entry the sweep keeps: locked, or with failures that may still lead to a lock. */
  predicate Kept(cfg: Settings, v: FailState, now: nat) {
    Locked(v, now) || (v.failCount > 0 && now - v.firstFailure <= cfg.window)
  }

  function Swept(cfg: Settings, t: Table, now: nat): Table {
    map k | k in t && Kept(cfg, t[k], now) :: t[k]
  }

  datatype Op = Fail(key: Key) | Query(key: Key) | Reset(key: Key) | Sweep

  datatype Step = Step(pre: Table, op: Op, now: nat, choice: Choice, out: Verdict, post: Table)

  predicate ValidStep(cfg: Settings, s: Step) {
    match s.op
    case Fail(k) => Fails(cfg, s.pre, k, s.now, s.choice, s.out, s.post)
    case Query(k) => s.post == s.pre && s.out == Answer(cfg, s.pre, k, s.now)
    case Reset(k) => s.post == s.pre - {k} && s.out == NOTHING
    case Sweep => s.post == Swept(cfg, s.pre, s.now) && s.out == NOTHING
  }

  /** The table after the first `i` steps. */
  ghost function At(tr: seq<Step>, i: nat): Table
    requires i <= |tr|
  {
    if i == 0 then map[] else tr[i - 1].post
  }

  ghost predicate Follows(cfg: Settings, tr: seq<Step>, i: nat)
    requires i < |tr|
  {
    && ValidStep(cfg, tr[i])
    && tr[i].pre == At(tr, i)
    && (i > 0 ==> tr[i - 1].now <= tr[i].now)
  }

  /** A whole run from the empty tracker, under a clock that never goes back. */
  ghost predicate Run(cfg: Settings, tr: seq<Step>) {
    Sound(cfg) && forall i :: 0 <= i < |tr| ==> Follows(cfg, tr, i)
  }

  // ---------------------------------------------------------------------------
  // Keys

  /** The map key: the normalised identity, cut to 254 bytes, a NUL, and the address. */
  function LockoutKey(normalise: Key -> Key, identity: Key, ip: Key): Key {
    var id := normalise(identity);
    Truncated(id) + [0] + ip
  }

  function Truncated(id: Key): Key {
    if |id| > MAX_IDENTITY_LEN then id[..MAX_IDENTITY_LEN] else id
  }

  /** The first 254 bytes, or all of a shorter text. */
  function First254(id: Key): Key {
    id[..Min(254, |id|)]
  }

  /**
  Two (identity, address) pairs share a key exactly when their addresses agree and their
  normalised identities agree on the first 254 bytes.  Identities may contain NUL; addresses may not.
  */
  lemma KeyIdentifiesPair(normalise: Key -> Key, id1: Key, ip1: Key, id2: Key, ip2: Key)
    requires 0 !in ip1 && 0 !in ip2
    ensures LockoutKey(normalise, id1, ip1) == LockoutKey(normalise, id2, ip2)
       <==> ip1 == ip2 && First254(normalise(id1)) == First254(normalise(id2))
  {
    var a, b := Truncated(normalise(id1)), Truncated(normalise(id2));
    assert a == First254(normalise(id1)) && b == First254(normalise(id2));
    if a + [0] + ip1 == b + [0] + ip2 {
      LastNulSplits(a, ip1, b, ip2);
    }
  }

  lemma LastNulSplits(a: Key, x: Key, b: Key, y: Key)
    requires 0 !in x && 0 !in y
    requires a + [0] + x == b + [0] + y
    ensures a == b && x == y
  {
    NulBeyond(a, x, b, y);
    NulBeyond(b, y, a, x);
    assert a == (a + [0] + x)[..|a|] && b == (b + [0] + y)[..|b|];
    assert x == (a + [0] + x)[|a| + 1..] && y == (b + [0] + y)[|b| + 1..];
  }

  lemma NulBeyond(a: Key, x: Key, b: Key, y: Key)
    requires a + [0] + x == b + [0] + y
    ensures |a| < |b| ==> 0 in x
  {
    if |a| < |b| {
      assert x[|b| - |a| - 1] == (a + [0] + x)[|b|] == (b + [0] + y)[|b|] == 0;
    }
  }

  // ---------------------------------------------------------------------------
  // One step

  /** Eviction removes at most one entry, never a locked one, and touches no other. */
  lemma EvictionFrame(t: Table, now: nat, c: Choice, evicted: bool, t': Table)
    requires Evicts(t, now, c, evicted, t')
    ensures t'.Keys <= t.Keys
    ensures forall k :: k in t' ==> t'[k] == t[k]
    ensures forall k :: k in t && k !in t' ==> !Locked(t[k], now)
    ensures |t'| == if evicted then |t| - 1 else |t|
  {}

  /**
  A failure recorded for one key leaves every other key locked or unlocked as it was, now and
  at any later time, and changes no other entry except by dropping one that is not locked.
  */
  lemma FailureFrame(cfg: Settings, t: Table, k: Key, now: nat, c: Choice, out: Verdict, t': Table, other: Key)
    requires Fails(cfg, t, k, now, c, out, t')
    requires other != k
    ensures other in t' ==> other in t && t'[other] == t[other]
    ensures other in t && other !in t' ==> !Locked(t[other], now)
    ensures forall at: nat :: now <= at ==> (LockedIn(t', other, at) <==> LockedIn(t, other, at))
  {}

  /** What a failure does to its own key: counted on the entry found there, or refused. */
  lemma FailureOwnKey(cfg: Settings, t: Table, k: Key, now: nat, c: Choice, out: Verdict, t': Table)
    requires Fails(cfg, t, k, now, c, out, t') && cfg.failMax > 0
    ensures k in t' ==> t'[k] == Bump(cfg, Get(t, k), now) && out == BumpVerdict(cfg, Get(t, k), now)
    ensures k !in t' ==> k !in t && t' == t && out == NOTHING
  {
  }

  /** The map stays within its cap. */
  lemma FailureKeepsCap(cfg: Settings, t: Table, k: Key, now: nat, c: Choice, out: Verdict, t': Table)
    requires Fails(cfg, t, k, now, c, out, t') && Sound(cfg) && |t| <= cfg.cap
    ensures |t'| <= cfg.cap
  {}

  /** Entries of `t` that are locked at `now`. */
  function LockedKeys(t: Table, now: nat): set<Key> {
    set k | k in t && Locked(t[k], now)
  }

  lemma SubsetSize<T>(a: set<T>, b: set<T>)
    requires a <= b
    ensures |a| <= |b|
  {
    assert b == a + (b - a);
  }

  /**
  A newcomer is refused exactly when the map is at its cap and every entry looked at is locked;
  so never while fewer than min(64, size) entries are locked, whatever the iteration order.
  */
  lemma RefusedIffSampleLocked(cfg: Settings, t: Table, k: Key, now: nat, c: Choice, out: Verdict, t': Table)
    requires Fails(cfg, t, k, now, c, out, t') && cfg.failMax > 0
    ensures k !in t' <==>
              && k !in t && |t| >= cfg.cap && c.sample <= t.Keys && |c.sample| == Min(64, |t|)
              && forall o :: o in c.sample ==> now < t[o].lockedUntil
    ensures |LockedKeys(t, now)| < Min(64, |t|) ==> k in t'
  {
    if k !in t && |t| >= cfg.cap && c.sample <= t.Keys && AllLocked(t, c.sample, now) {
      SubsetSize(c.sample, LockedKeys(t, now));
    }
  }
}
