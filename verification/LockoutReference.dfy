/**
The bounded, swept tracker against the simplest one that could be meant: unbounded, never
swept (api/shared/authlockout.go:226-300, 420-449).
*/
module LockoutReference {
  import opened Lockout
  import opened LockoutRuns

  function RefPost(cfg: Settings, r: Table, op: Op, now: nat): Table {
    match op
    case Fail(k) => if cfg.failMax <= 0 then r else r[k := Bump(cfg, Get(r, k), now)]
    case Query(_) => r
    case Reset(k) => r - {k}
    case Sweep => r
  }

  function RefOut(cfg: Settings, r: Table, op: Op, now: nat): Verdict {
    match op
    case Fail(k) => if cfg.failMax <= 0 then NOTHING else BumpVerdict(cfg, Get(r, k), now)
    case Query(k) => Answer(cfg, r, k, now)
    case Reset(_) => NOTHING
    case Sweep => NOTHING
  }

  /** The reference tracker after the first `i` operations of the run. */
  ghost function RefAt(cfg: Settings, tr: seq<Step>, i: nat): Table
    requires i <= |tr|
  {
    if i == 0 then map[] else RefPost(cfg, RefAt(cfg, tr, i - 1), tr[i - 1].op, tr[i - 1].now)
  }

  /** The keys for which the run ever records a failure. */
  ghost function FailKeys(tr: seq<Step>): set<Key> {
    set i | 0 <= i < |tr| && tr[i].op.Fail? :: tr[i].op.key
  }

  /** Entries that no later operation can tell apart. */
  ghost predicate Alike(cfg: Settings, v: FailState, w: FailState, now: nat) {
    && LiveCount(cfg, v, now) == LiveCount(cfg, w, now)
    && (LiveCount(cfg, v, now) > 0 ==> v.firstFailure == w.firstFailure)
    && (v.lockedUntil == w.lockedUntil || (!Locked(v, now) && !Locked(w, now)))
  }

  ghost predicate Sim(cfg: Settings, t: Table, r: Table, now: nat) {
    forall k :: Alike(cfg, Get(t, k), Get(r, k), now)
  }

  lemma AlikeLater(cfg: Settings, v: FailState, w: FailState, now: nat, later: nat)
    requires Alike(cfg, v, w, now) && now <= later
    ensures Alike(cfg, v, w, later)
  {}

  lemma SimLater(cfg: Settings, t: Table, r: Table, now: nat, later: nat)
    requires Sim(cfg, t, r, now) && now <= later
    ensures Sim(cfg, t, r, later)
  {
    forall k ensures Alike(cfg, Get(t, k), Get(r, k), later) {
      AlikeLater(cfg, Get(t, k), Get(r, k), now, later);
    }
  }

  lemma AlikeBump(cfg: Settings, v: FailState, w: FailState, now: nat)
    requires Alike(cfg, v, w, now) && Sound(cfg)
    ensures BumpVerdict(cfg, v, now) == BumpVerdict(cfg, w, now)
    ensures Alike(cfg, Bump(cfg, v, now), Bump(cfg, w, now), now)
  {}

  lemma SimStep(cfg: Settings, s: Step, r: Table)
    requires Sound(cfg) && ValidStep(cfg, s) && Sim(cfg, s.pre, r, s.now)
    requires s.op.Fail? ==> s.op.key in s.pre || |s.pre| < cfg.cap
    ensures s.out == RefOut(cfg, r, s.op, s.now)
    ensures Sim(cfg, s.post, RefPost(cfg, r, s.op, s.now), s.now)
  {
    var r' := RefPost(cfg, r, s.op, s.now);
    if s.op.Fail? {
      AlikeBump(cfg, Get(s.pre, s.op.key), Get(r, s.op.key), s.now);
    } else if s.op.Query? {
      assert Alike(cfg, Get(s.pre, s.op.key), Get(r, s.op.key), s.now);
    }
    forall k ensures Alike(cfg, Get(s.post, k), Get(r', k), s.now) {
      assert Alike(cfg, Get(s.pre, k), Get(r, k), s.now);
    }
  }

  lemma {:induction false} OnlyFailedKeysTracked(cfg: Settings, tr: seq<Step>, i: nat)
    requires Run(cfg, tr) && i <= |tr|
    ensures At(tr, i).Keys <= FailKeys(tr)
  {
    if i > 0 {
      OnlyFailedKeysTracked(cfg, tr, i - 1);
      StepAt(cfg, tr, i - 1);
      assert tr[i - 1].op.Fail? ==> tr[i - 1].op.key in FailKeys(tr);
    }
  }

  lemma RoomForNewcomer(cfg: Settings, tr: seq<Step>, i: nat)
    requires Run(cfg, tr) && i < |tr| && tr[i].op.Fail? && |FailKeys(tr)| <= cfg.cap
    ensures tr[i].op.key in tr[i].pre || |tr[i].pre| < cfg.cap
  {
    var k := tr[i].op.key;
    StepAt(cfg, tr, i);
    OnlyFailedKeysTracked(cfg, tr, i);
    if k !in tr[i].pre {
      assert k in FailKeys(tr);
      SubsetSize(tr[i].pre.Keys + {k}, FailKeys(tr));
    }
  }

  lemma {:induction false} SimAt(cfg: Settings, tr: seq<Step>, i: nat)
    requires Run(cfg, tr) && i < |tr| && |FailKeys(tr)| <= cfg.cap
    ensures Sim(cfg, tr[i].pre, RefAt(cfg, tr, i), tr[i].now)
  {
    StepAt(cfg, tr, i);
    if i > 0 {
      var s, r := tr[i - 1], RefAt(cfg, tr, i - 1);
      SimAt(cfg, tr, i - 1);
      StepAt(cfg, tr, i - 1);
      if s.op.Fail? { RoomForNewcomer(cfg, tr, i - 1); }
      SimStep(cfg, s, r);
      SimLater(cfg, s.post, RefPost(cfg, r, s.op, s.now), s.now, tr[i].now);
    }
  }

  /**
  Sweeping and bounding are unobservable: in every run that records failures for no more
  distinct keys than the cap, each operation answers exactly what the reference answers.
  */
  lemma SweepUnobservable(cfg: Settings, tr: seq<Step>, i: nat)
    requires Run(cfg, tr) && i < |tr| && |FailKeys(tr)| <= cfg.cap
    ensures tr[i].out == RefOut(cfg, RefAt(cfg, tr, i), tr[i].op, tr[i].now)
  {
    SimAt(cfg, tr, i);
    StepAt(cfg, tr, i);
    if tr[i].op.Fail? { RoomForNewcomer(cfg, tr, i); }
    SimStep(cfg, tr[i], RefAt(cfg, tr, i));
  }
}
