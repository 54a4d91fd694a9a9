/**
The per-address rate limiters: the public one drops a bucket only when it is full again
(api/shared/ratelimit.go), the admin one drops every bucket on each tick (api/admin/server.go).
A token bucket is taken over the reals; times are in seconds.
*/
module RateLimit {
  datatype Limit = Limit(rate: real, burst: nat)
  datatype Bucket = Bucket(tokens: real, last: real)
  type Buckets = map<string, Bucket>

  /** What the cleanup tick does to the map of buckets. */
  datatype Policy = KeepAll | DropFull | DropAll

  datatype Op = Request(addr: string, now: real) | Tick(now: real)

  function MinReal(a: real, b: real): real {
    if a <= b then a else b
  }

  /** Tokens that accrue over `dt` seconds. */
  function Refill(l: Limit, dt: real): real {
    if l.rate <= 0.0 || dt <= 0.0 then 0.0 else l.rate * dt
  }

  function Fresh(l: Limit): Bucket {
    Bucket(l.burst as real, 0.0)
  }

  function Tokens(l: Limit, b: Bucket, now: real): real {
    MinReal(l.burst as real, b.tokens + Refill(l, now - b.last))
  }

  function TokensAt(l: Limit, s: Buckets, addr: string, now: real): real {
    if addr in s then Tokens(l, s[addr], now) else l.burst as real
  }

  predicate Admits(l: Limit, s: Buckets, op: Op) {
    op.Request? && TokensAt(l, s, op.addr, op.now) >= 1.0
  }

  function Post(p: Policy, l: Limit, s: Buckets, op: Op): Buckets {
    match op
    case Request(a, now) =>
      var b := if a in s then s[a] else Fresh(l);
      if Tokens(l, b, now) >= 1.0 then s[a := Bucket(Tokens(l, b, now) - 1.0, now)] else s[a := b]
    case Tick(now) =>
      match p
      case KeepAll => s
      case DropFull => map a | a in s && Tokens(l, s[a], now) < l.burst as real :: s[a]
      case DropAll => map[]
  }

  /** The buckets after the first `i` operations. */
  ghost function After(p: Policy, l: Limit, ops: seq<Op>, i: nat): Buckets
    requires i <= |ops|
  {
    if i == 0 then map[] else Post(p, l, After(p, l, ops, i - 1), ops[i - 1])
  }

  ghost predicate Admitted(p: Policy, l: Limit, ops: seq<Op>, i: nat)
    requires i < |ops|
  {
    Admits(l, After(p, l, ops, i), ops[i])
  }

  ghost predicate Ordered(ops: seq<Op>) {
    forall i, j :: 0 <= i <= j < |ops| ==> ops[i].now <= ops[j].now
  }

  // ---------------------------------------------------------------------------
  // Dropping a full bucket is unobservable

  lemma RefillAdds(l: Limit, a: real, b: real)
    requires a >= 0.0 && b >= 0.0
    ensures Refill(l, a + b) == Refill(l, a) + Refill(l, b)
    ensures Refill(l, a) >= 0.0
  {}

  ghost predicate SameFrom(l: Limit, s: Buckets, r: Buckets, addr: string, now: real) {
    forall t: real :: t >= now ==> TokensAt(l, s, addr, t) == TokensAt(l, r, addr, t)
  }

  ghost predicate Same(l: Limit, s: Buckets, r: Buckets, now: real) {
    forall a :: SameFrom(l, s, r, a, now)
  }

  lemma FullStaysFull(l: Limit, b: Bucket, now: real, later: real)
    requires Tokens(l, b, now) >= l.burst as real && now <= later
    ensures Tokens(l, b, later) == l.burst as real
  {}

  lemma SameAfter(l: Limit, s: Buckets, r: Buckets, op: Op)
    requires Same(l, s, r, op.now)
    ensures Admits(l, s, op) <==> Admits(l, r, op)
    ensures Same(l, Post(DropFull, l, s, op), Post(KeepAll, l, r, op), op.now)
  {
    var s', r' := Post(DropFull, l, s, op), Post(KeepAll, l, r, op);
    if op.Request? {
      assert SameFrom(l, s, r, op.addr, op.now);
      assert TokensAt(l, s, op.addr, op.now) == TokensAt(l, r, op.addr, op.now);
    }
    forall a ensures SameFrom(l, s', r', a, op.now) {
      assert SameFrom(l, s, r, a, op.now);
      forall t: real | t >= op.now ensures TokensAt(l, s', a, t) == TokensAt(l, r', a, t) {
        assert TokensAt(l, s, a, t) == TokensAt(l, r, a, t);
        if op.Tick? && a in s && a !in s' { FullStaysFull(l, s[a], op.now, t); }
        RefillAdds(l, if t >= 0.0 then t else 0.0, 0.0);
      }
    }
  }

  lemma {:induction false} SameAt(l: Limit, ops: seq<Op>, i: nat)
    requires Ordered(ops) && i < |ops|
    ensures Same(l, After(DropFull, l, ops, i), After(KeepAll, l, ops, i), ops[i].now)
  {
    if i > 0 {
      SameAt(l, ops, i - 1);
      SameAfter(l, After(DropFull, l, ops, i - 1), After(KeepAll, l, ops, i - 1), ops[i - 1]);
      forall a ensures SameFrom(l, After(DropFull, l, ops, i), After(KeepAll, l, ops, i), a, ops[i].now) {
        assert SameFrom(l, After(DropFull, l, ops, i), After(KeepAll, l, ops, i), a, ops[i - 1].now);
      }
    }
  }

  /**
  For every sequence of requests and cleanup ticks, the public limiter admits exactly the
  requests that a limiter which never deletes a bucket admits.
  */
  lemma CleanupUnobservable(l: Limit, ops: seq<Op>, i: nat)
    requires Ordered(ops) && i < |ops|
    ensures Admitted(DropFull, l, ops, i) <==> Admitted(KeepAll, l, ops, i)
  {
    SameAt(l, ops, i);
    SameAfter(l, After(DropFull, l, ops, i), After(KeepAll, l, ops, i), ops[i]);
  }

  // ---------------------------------------------------------------------------
  // Throughput

  /** Requests of `addr` admitted among operations lo..hi-1. */
  ghost function Admissions(p: Policy, l: Limit, ops: seq<Op>, addr: string, lo: nat, hi: nat): nat
    requires lo <= hi <= |ops|
    decreases hi
  {
    if lo == hi then 0
    else
      Admissions(p, l, ops, addr, lo, hi - 1)
      + if ops[hi - 1].Request? && ops[hi - 1].addr == addr && Admitted(p, l, ops, hi - 1) then 1 else 0
  }

  ghost function Ticks(ops: seq<Op>, lo: nat, hi: nat): nat
    requires lo <= hi <= |ops|
    decreases hi
  {
    if lo == hi then 0 else Ticks(ops, lo, hi - 1) + if ops[hi - 1].Tick? then 1 else 0
  }

  ghost predicate BucketsInv(l: Limit, s: Buckets, now: real) {
    forall a :: a in s ==> 0.0 <= s[a].tokens <= l.burst as real && s[a].last <= now
  }

  /** The extra tokens a tick may conjure up under a policy. */
  function Bonus(p: Policy, l: Limit, ticks: nat): real {
    if p.DropAll? then (ticks * l.burst) as real else 0.0
  }

  lemma TokensGrow(l: Limit, s: Buckets, addr: string, before: real, now: real)
    requires BucketsInv(l, s, before) && before <= now
    ensures 0.0 <= TokensAt(l, s, addr, before) <= TokensAt(l, s, addr, now)
    ensures TokensAt(l, s, addr, now) <= TokensAt(l, s, addr, before) + Refill(l, now - before)
  {
    RefillAdds(l, now - before, 0.0);
    if addr in s {
      var b := s[addr];
      assert now - b.last == (before - b.last) + (now - before);
      RefillAdds(l, before - b.last, now - before);
    }
  }

  lemma StepBudget(p: Policy, l: Limit, s: Buckets, op: Op, addr: string, before: real)
    requires BucketsInv(l, s, before) && before <= op.now && 0.0 <= op.now
    ensures BucketsInv(l, Post(p, l, s, op), op.now)
    ensures (if op.Request? && op.addr == addr && Admits(l, s, op) then 1.0 else 0.0)
            + TokensAt(l, Post(p, l, s, op), addr, op.now)
         <= TokensAt(l, s, addr, before) + Refill(l, op.now - before) + Bonus(p, l, if op.Tick? then 1 else 0)
  {
    TokensGrow(l, s, addr, before, op.now);
    RefillAdds(l, op.now, 0.0);
    if op.Request? { TokensGrow(l, s, op.addr, before, op.now); }
  }

  /** The time of the operation before the `i`-th, or of the first one. */
  function Before(ops: seq<Op>, i: nat): real
    requires i <= |ops| && ops != []
  {
    if i == 0 then ops[0].now else ops[i - 1].now
  }

  lemma {:induction false} InvAt(p: Policy, l: Limit, ops: seq<Op>, i: nat)
    requires Ordered(ops) && ops != [] && i <= |ops| && 0.0 <= ops[0].now
    ensures BucketsInv(l, After(p, l, ops, i), Before(ops, i))
    ensures 0.0 <= Before(ops, i)
  {
    if i > 0 {
      InvAt(p, l, ops, i - 1);
      StepBudget(p, l, After(p, l, ops, i - 1), ops[i - 1], "", Before(ops, i - 1));
    }
  }

  lemma BonusAdds(p: Policy, l: Limit, k: nat, t: nat)
    ensures Bonus(p, l, k + t) == Bonus(p, l, k) + Bonus(p, l, t)
  {}

  /** What a limiter may have spent by the end of a window. */
  ghost predicate WithinBudget(p: Policy, l: Limit, ops: seq<Op>, addr: string, lo: nat, hi: nat)
    requires lo < hi <= |ops|
  {
    Admissions(p, l, ops, addr, lo, hi) as real + TokensAt(l, After(p, l, ops, hi), addr, ops[hi - 1].now)
    <= l.burst as real + Refill(l, ops[hi - 1].now - ops[lo].now) + Bonus(p, l, Ticks(ops, lo, hi))
  }

  lemma BudgetFirst(p: Policy, l: Limit, ops: seq<Op>, addr: string, lo: nat)
    requires Ordered(ops) && lo < |ops| && 0.0 <= ops[0].now
    ensures WithinBudget(p, l, ops, addr, lo, lo + 1)
  {
    InvAt(p, l, ops, lo);
    StepBudget(p, l, After(p, l, ops, lo), ops[lo], addr, ops[lo].now);
    assert Admissions(p, l, ops, addr, lo, lo) == 0 && Ticks(ops, lo, lo) == 0;
  }

  /** One more step of a budget, on numbers alone. */
  lemma BudgetSum(spent: nat, one: nat, left: real, left': real, burst: real, r: real, dr: real, bonus: real, db: real)
    requires spent as real + left <= burst + r + bonus && one as real + left' <= left + dr + db
    ensures (spent + one) as real + left' <= burst + (r + dr) + (bonus + db)
  {}

  lemma BudgetNext(p: Policy, l: Limit, ops: seq<Op>, addr: string, lo: nat, hi: nat)
    requires Ordered(ops) && lo < hi < |ops| && 0.0 <= ops[0].now
    requires WithinBudget(p, l, ops, addr, lo, hi)
    ensures WithinBudget(p, l, ops, addr, lo, hi + 1)
  {
    var s, op, before := After(p, l, ops, hi), ops[hi], ops[hi - 1].now;
    var one, tick := if op.Request? && op.addr == addr && Admits(l, s, op) then 1 else 0, if op.Tick? then 1 else 0;
    InvAt(p, l, ops, hi);
    StepBudget(p, l, s, op, addr, before);
    BonusAdds(p, l, Ticks(ops, lo, hi), tick);
    assert op.now - ops[lo].now == (before - ops[lo].now) + (op.now - before);
    RefillAdds(l, before - ops[lo].now, op.now - before);
    BudgetSum(Admissions(p, l, ops, addr, lo, hi), one, TokensAt(l, s, addr, before),
              TokensAt(l, Post(p, l, s, op), addr, op.now), l.burst as real,
              Refill(l, before - ops[lo].now), Refill(l, op.now - before),
              Bonus(p, l, Ticks(ops, lo, hi)), Bonus(p, l, tick));
    CountsNext(p, l, ops, addr, lo, hi, one, tick);
  }

  lemma CountsNext(p: Policy, l: Limit, ops: seq<Op>, addr: string, lo: nat, hi: nat, one: nat, tick: nat)
    requires lo <= hi < |ops|
    requires one == if ops[hi].Request? && ops[hi].addr == addr && Admitted(p, l, ops, hi) then 1 else 0
    requires tick == if ops[hi].Tick? then 1 else 0
    ensures Admissions(p, l, ops, addr, lo, hi + 1) == Admissions(p, l, ops, addr, lo, hi) + one
    ensures Ticks(ops, lo, hi + 1) == Ticks(ops, lo, hi) + tick
  {}

  lemma {:induction false} Budget(p: Policy, l: Limit, ops: seq<Op>, addr: string, lo: nat, hi: nat)
    requires Ordered(ops) && lo < hi <= |ops| && 0.0 <= ops[0].now
    ensures WithinBudget(p, l, ops, addr, lo, hi)
    decreases hi
  {
    if lo == hi - 1 {
      BudgetFirst(p, l, ops, addr, lo);
    } else {
      Budget(p, l, ops, addr, lo, hi - 1);
      BudgetNext(p, l, ops, addr, lo, hi - 1);
    }
  }

  lemma TokensNonNegative(p: Policy, l: Limit, ops: seq<Op>, addr: string, hi: nat)
    requires Ordered(ops) && 0 < hi <= |ops| && 0.0 <= ops[0].now
    ensures TokensAt(l, After(p, l, ops, hi), addr, ops[hi - 1].now) >= 0.0
  {
    InvAt(p, l, ops, hi);
    TokensGrow(l, After(p, l, ops, hi), addr, ops[hi - 1].now, ops[hi - 1].now);
  }

  /** What the rate adds over a window. */
  lemma RefillIsProduct(l: Limit, dt: real)
    requires dt >= 0.0
    ensures Refill(l, dt) == if l.rate > 0.0 then l.rate * dt else 0.0
  {}

  lemma PublicBudget(l: Limit, ops: seq<Op>, addr: string, lo: nat, hi: nat)
    requires Ordered(ops) && lo < hi <= |ops| && 0.0 <= ops[0].now
    ensures Admissions(DropFull, l, ops, addr, lo, hi) as real
         <= l.burst as real + Refill(l, ops[hi - 1].now - ops[lo].now)
  {
    Budget(DropFull, l, ops, addr, lo, hi);
    TokensNonNegative(DropFull, l, ops, addr, hi);
  }

  /** In any window the public limiter admits at most burst + rate * T requests per address. */
  lemma PublicThroughput(l: Limit, ops: seq<Op>, addr: string, lo: nat, hi: nat, T: real)
    requires Ordered(ops) && lo < hi <= |ops| && 0.0 <= ops[0].now && T == ops[hi - 1].now - ops[lo].now
    ensures Admissions(DropFull, l, ops, addr, lo, hi) as real
         <= l.burst as real + if l.rate > 0.0 then l.rate * T else 0.0
  {
    PublicBudget(l, ops, addr, lo, hi);
    RefillIsProduct(l, T);
  }

  lemma AdminBudget(l: Limit, ops: seq<Op>, addr: string, lo: nat, hi: nat)
    requires Ordered(ops) && lo < hi <= |ops| && 0.0 <= ops[0].now
    ensures Admissions(DropAll, l, ops, addr, lo, hi) as real
         <= ((Ticks(ops, lo, hi) + 1) * l.burst) as real + Refill(l, ops[hi - 1].now - ops[lo].now)
  {
    Budget(DropAll, l, ops, addr, lo, hi);
    TokensNonNegative(DropAll, l, ops, addr, hi);
    BonusAdds(DropAll, l, Ticks(ops, lo, hi), 1);
    assert Bonus(DropAll, l, 1) == l.burst as real;
  }

  /** With k ticks in the window the admin limiter admits at most (k + 1) * burst + rate * T. */
  lemma AdminThroughput(l: Limit, ops: seq<Op>, addr: string, lo: nat, hi: nat, T: real)
    requires Ordered(ops) && lo < hi <= |ops| && 0.0 <= ops[0].now && T == ops[hi - 1].now - ops[lo].now
    ensures Admissions(DropAll, l, ops, addr, lo, hi) as real
         <= ((Ticks(ops, lo, hi) + 1) * l.burst) as real + if l.rate > 0.0 then l.rate * T else 0.0
  {
    AdminBudget(l, ops, addr, lo, hi);
    RefillIsProduct(l, T);
  }

  // ---------------------------------------------------------------------------
  // Who is admitted, told from the requests alone

  /** What `left` tokens have become `dt` seconds later: `rate` more for each second, never above the burst. */
  function Grown(l: Limit, left: real, dt: real): real {
    var full := if l.rate > 0.0 && dt > 0.0 then left + l.rate * dt else left;
    if full <= l.burst as real then full else l.burst as real
  }

  lemma TokensGrown(l: Limit, b: Bucket, at: real)
    ensures Tokens(l, b, at) == Grown(l, b.tokens, at - b.last)
  {
    GrownIsMin(l, b.tokens, at - b.last);
  }

  lemma GrownIsMin(l: Limit, left: real, dt: real)
    ensures Grown(l, left, dt) == MinReal(l.burst as real, left + Refill(l, dt))
  {}

  /**
  The tokens an address has at `at`, after the first `n` operations: a whole burst at first, and one
  less for each request that found a token, growing from then on.  Under DropAll every tick starts
  the address afresh.
  */
  ghost function Level(p: Policy, l: Limit, ops: seq<Op>, addr: string, n: nat, at: real): real
    requires n <= |ops|
  {
    if n == 0 then l.burst as real
    else
      var op := ops[n - 1];
      if op.Tick? && p.DropAll? then l.burst as real
      else if op.Request? && op.addr == addr && Level(p, l, ops, addr, n - 1, op.now) >= 1.0 then
        Grown(l, Level(p, l, ops, addr, n - 1, op.now) - 1.0, at - op.now)
      else Level(p, l, ops, addr, n - 1, at)
  }

  lemma FreshIsFull(l: Limit, at: real)
    ensures Tokens(l, Fresh(l), at) == l.burst as real
  {
    RefillAdds(l, if at >= 0.0 then at else 0.0, 0.0);
  }

  lemma {:induction false} TokensAreLevel(p: Policy, l: Limit, ops: seq<Op>, addr: string, n: nat, at: real)
    requires Ordered(ops) && n <= |ops| && p != DropFull && (n > 0 ==> ops[n - 1].now <= at)
    ensures TokensAt(l, After(p, l, ops, n), addr, at) == Level(p, l, ops, addr, n, at)
  {
    if n > 0 {
      TokensAreLevel(p, l, ops, addr, n - 1, ops[n - 1].now);
      TokensAreLevel(p, l, ops, addr, n - 1, at);
      TokensNext(p, l, After(p, l, ops, n - 1), ops[n - 1], addr, at);
    }
  }

  /** One operation, seen from one address. */
  lemma TokensNext(p: Policy, l: Limit, s: Buckets, op: Op, addr: string, at: real)
    requires p != DropFull && op.now <= at
    ensures TokensAt(l, Post(p, l, s, op), addr, at) ==
            if op.Tick? && p.DropAll? then l.burst as real
            else if op.Request? && op.addr == addr && TokensAt(l, s, addr, op.now) >= 1.0
            then Grown(l, TokensAt(l, s, addr, op.now) - 1.0, at - op.now)
            else TokensAt(l, s, addr, at)
  {
    FreshIsFull(l, at);
    FreshIsFull(l, op.now);
    if op.Request? && op.addr == addr {
      TokensGrown(l, Bucket(TokensAt(l, s, addr, op.now) - 1.0, op.now), at);
    }
  }

  /** Each limiter admits a request if and only if its address has a whole token left. */
  lemma AdmittedExact(p: Policy, l: Limit, ops: seq<Op>, i: nat)
    requires Ordered(ops) && i < |ops| && ops[i].Request?
    ensures Admitted(p, l, ops, i) <==> Level(p, l, ops, ops[i].addr, i, ops[i].now) >= 1.0
  {
    if p == DropFull {
      CleanupUnobservable(l, ops, i);
      TokensAreLevel(KeepAll, l, ops, ops[i].addr, i, ops[i].now);
      SameLevel(l, ops, ops[i].addr, i, ops[i].now);
    } else {
      TokensAreLevel(p, l, ops, ops[i].addr, i, ops[i].now);
    }
  }

  lemma {:induction false} SameLevel(l: Limit, ops: seq<Op>, addr: string, n: nat, at: real)
    requires n <= |ops|
    ensures Level(DropFull, l, ops, addr, n, at) == Level(KeepAll, l, ops, addr, n, at)
  {
    if n > 0 {
      SameLevel(l, ops, addr, n - 1, ops[n - 1].now);
      SameLevel(l, ops, addr, n - 1, at);
    }
  }

  /** No request of the address was admitted after step `i` and before step `j`. */
  ghost predicate NoneBetween(l: Limit, ops: seq<Op>, addr: string, i: nat, j: nat)
    requires j <= |ops|
  {
    forall m :: i < m < j && ops[m].Request? && ops[m].addr == addr ==> !Admitted(DropFull, l, ops, m)
  }

  lemma {:induction false} LevelSince(l: Limit, ops: seq<Op>, addr: string, i: nat, j: nat, at: real)
    requires Ordered(ops) && i < j <= |ops| && NoneBetween(l, ops, addr, i, j)
    ensures Level(DropFull, l, ops, addr, j, at) == Level(DropFull, l, ops, addr, i + 1, at)
    decreases j
  {
    if i + 1 < j {
      LevelSince(l, ops, addr, i, j - 1, at);
      if ops[j - 1].Request? && ops[j - 1].addr == addr {
        AdmittedExact(DropFull, l, ops, j - 1);
      }
    }
  }

  /**
  The next request after an admitted one that found `left` tokens is admitted if and only if what
  was left and what the rate has added since make a whole token, the burst permitting.
  */
  lemma NextAdmittedIff(l: Limit, ops: seq<Op>, addr: string, i: nat, j: nat, left: real, dt: real)
    requires Ordered(ops) && i < j < |ops| && l.rate > 0.0
    requires left == Level(DropFull, l, ops, addr, i, ops[i].now) && dt == ops[j].now - ops[i].now
    requires ops[i].Request? && ops[i].addr == addr && Admitted(DropFull, l, ops, i)
    requires ops[j].Request? && ops[j].addr == addr && NoneBetween(l, ops, addr, i, j)
    ensures Admitted(DropFull, l, ops, j) <==> l.burst >= 1 && left - 1.0 + l.rate * dt >= 1.0
  {
    AdmittedExact(DropFull, l, ops, i);
    AdmittedExact(DropFull, l, ops, j);
    LevelSince(l, ops, addr, i, j, ops[j].now);
    GrownToOne(l, left - 1.0, dt);
  }

  lemma GrownToOne(l: Limit, left: real, dt: real)
    requires l.rate > 0.0 && dt >= 0.0
    ensures Grown(l, left, dt) >= 1.0 <==> l.burst >= 1 && left + l.rate * dt >= 1.0
  {
    if dt == 0.0 { assert l.rate * dt == 0.0; }
  }

  lemma GrownToFull(l: Limit, left: real, dt: real)
    requires l.rate > 0.0 && left >= 0.0 && l.burst >= 1 && BurstBack(l, dt)
    ensures Grown(l, left, dt) == l.burst as real
  {
    if dt <= 0.0 { NotPositive(l.rate, dt); }
  }

  lemma NotPositive(a: real, b: real)
    requires a > 0.0 && b <= 0.0
    ensures a * b <= 0.0
  {}

  /** In `dt` seconds the rate brings back a whole burst. */
  predicate BurstBack(l: Limit, dt: real) {
    l.rate * dt >= l.burst as real
  }

  /** Every request of the address admitted so far is long enough ago for a whole burst to have come back. */
  ghost predicate Idle(l: Limit, ops: seq<Op>, addr: string, n: nat, at: real)
    requires n <= |ops|
  {
    forall m :: 0 <= m < n && ops[m].Request? && ops[m].addr == addr && Admitted(DropFull, l, ops, m)
                ==> BurstBack(l, at - ops[m].now)
  }

  lemma {:induction false} IdleIsFull(l: Limit, ops: seq<Op>, addr: string, n: nat, at: real)
    requires Ordered(ops) && n <= |ops| && l.rate > 0.0 && l.burst >= 1 && Idle(l, ops, addr, n, at)
    ensures Level(DropFull, l, ops, addr, n, at) == l.burst as real
  {
    if n > 0 {
      IdleIsFull(l, ops, addr, n - 1, at);
      if ops[n - 1].Request? && ops[n - 1].addr == addr {
        AdmittedExact(DropFull, l, ops, n - 1);
        if Admitted(DropFull, l, ops, n - 1) {
          GrownToFull(l, Level(DropFull, l, ops, addr, n - 1, ops[n - 1].now) - 1.0, at - ops[n - 1].now);
        }
      }
    }
  }

  /** An address that has been idle for burst / rate seconds has its whole burst admitted at once. */
  lemma IdleBurstAdmitted(l: Limit, ops: seq<Op>, addr: string, now: real, from: nat, n: nat)
    requires Ordered(ops) && l.rate > 0.0 && n < l.burst && from + n < |ops|
    requires forall i :: from <= i <= from + n ==> ops[i] == Request(addr, now)
    requires Idle(l, ops, addr, from, now)
    ensures Admitted(DropFull, l, ops, from + n)
  {
    IdleIsFull(l, ops, addr, from, now);
    SameLevel(l, ops, addr, from, now);
    assert from > 0 ==> ops[from - 1].now <= ops[from].now;
    TokensAreLevel(KeepAll, l, ops, addr, from, now);
    AdmittedAfterDrain(KeepAll, l, ops, addr, now, from, n, l.burst as real);
    CleanupUnobservable(l, ops, from + n);
  }

  // ---------------------------------------------------------------------------
  // The admin bound is reached

  function Burst(l: Limit, addr: string, now: real): seq<Op> {
    seq(l.burst, _ => Request(addr, now))
  }

  /** k + 1 whole bursts with a tick between each two, all at one instant. */
  function Bursts(l: Limit, addr: string, now: real, k: nat): (ops: seq<Op>)
    ensures forall i :: 0 <= i < |ops| ==> ops[i].now == now
  {
    if k == 0 then Burst(l, addr, now) else Bursts(l, addr, now, k - 1) + [Tick(now)] + Burst(l, addr, now)
  }

  lemma RequestTakes(p: Policy, l: Limit, s: Buckets, addr: string, now: real)
    requires 1.0 <= TokensAt(l, s, addr, now)
    ensures Admits(l, s, Request(addr, now))
    ensures TokensAt(l, Post(p, l, s, Request(addr, now)), addr, now) == TokensAt(l, s, addr, now) - 1.0
  {}

  /** Requests at one instant are admitted while whole tokens last. */
  lemma {:induction false} Drain(p: Policy, l: Limit, ops: seq<Op>, addr: string, now: real, from: nat, n: nat, tokens: real)
    requires from + n <= |ops| && n as real <= tokens <= l.burst as real
    requires forall i :: from <= i < from + n ==> ops[i] == Request(addr, now)
    requires TokensAt(l, After(p, l, ops, from), addr, now) == tokens
    ensures Admissions(p, l, ops, addr, 0, from + n) == Admissions(p, l, ops, addr, 0, from) + n
    ensures TokensAt(l, After(p, l, ops, from + n), addr, now) == tokens - n as real
    decreases n
  {
    if n > 0 {
      Drain(p, l, ops, addr, now, from, n - 1, tokens);
      assert ops[from + n - 1] == Request(addr, now);
      RequestTakes(p, l, After(p, l, ops, from + n - 1), addr, now);
    }
  }

  lemma {:induction false} CountsPrefix(p: Policy, l: Limit, ops: seq<Op>, more: seq<Op>, addr: string, hi: nat)
    requires hi <= |ops|
    ensures Admissions(p, l, ops + more, addr, 0, hi) == Admissions(p, l, ops, addr, 0, hi)
    ensures Ticks(ops + more, 0, hi) == Ticks(ops, 0, hi)
    decreases hi
  {
    if hi > 0 {
      CountsPrefix(p, l, ops, more, addr, hi - 1);
      AfterPrefix(p, l, ops, more, hi - 1);
      assert (ops + more)[hi - 1] == ops[hi - 1];
    }
  }

  lemma {:induction false} NoTicks(ops: seq<Op>, from: nat, n: nat)
    requires from + n <= |ops| && forall i :: from <= i < from + n ==> ops[i].Request?
    ensures Ticks(ops, 0, from + n) == Ticks(ops, 0, from)
    decreases n
  {
    if n > 0 { NoTicks(ops, from, n - 1); }
  }

  /** A burst that finds a full bucket is admitted whole. */
  lemma BurstAdmitted(l: Limit, ops: seq<Op>, addr: string, now: real, from: nat)
    requires |ops| == from + l.burst && forall i :: from <= i < from + l.burst ==> ops[i] == Request(addr, now)
    requires TokensAt(l, After(DropAll, l, ops, from), addr, now) == l.burst as real
    ensures Admissions(DropAll, l, ops, addr, 0, |ops|) == Admissions(DropAll, l, ops, addr, 0, from) + l.burst
    ensures Ticks(ops, 0, |ops|) == Ticks(ops, 0, from)
  {
    BurstDrains(l, ops, addr, now, from, l.burst);
    NoTicks(ops, from, l.burst);
  }

  lemma BurstDrains(l: Limit, ops: seq<Op>, addr: string, now: real, from: nat, n: nat)
    requires n == l.burst && from + n <= |ops| && forall i :: from <= i < from + n ==> ops[i] == Request(addr, now)
    requires TokensAt(l, After(DropAll, l, ops, from), addr, now) == l.burst as real
    ensures Admissions(DropAll, l, ops, addr, 0, from + n) == Admissions(DropAll, l, ops, addr, 0, from) + n
  {
    Drain(DropAll, l, ops, addr, now, from, n, n as real);
  }

  /** k ticks, and k + 1 whole bursts admitted. */
  ghost predicate AllAdmitted(l: Limit, ops: seq<Op>, addr: string, k: nat) {
    Admissions(DropAll, l, ops, addr, 0, |ops|) == (k + 1) * l.burst && Ticks(ops, 0, |ops|) == k
  }

  /** After a tick a whole burst is admitted again. */
  lemma TickThenBurst(l: Limit, prev: seq<Op>, addr: string, now: real)
    ensures var ops := prev + [Tick(now)] + Burst(l, addr, now);
            && Admissions(DropAll, l, ops, addr, 0, |ops|) == Admissions(DropAll, l, prev, addr, 0, |prev|) + l.burst
            && Ticks(ops, 0, |ops|) == Ticks(prev, 0, |prev|) + 1
  {
    var tail := [Tick(now)] + Burst(l, addr, now);
    var ops := prev + tail;
    assert ops == prev + [Tick(now)] + Burst(l, addr, now);
    CountsPrefix(DropAll, l, prev, tail, addr, |prev|);
    TickClears(l, ops, addr, now, |prev|);
    BurstAdmitted(l, ops, addr, now, |prev| + 1);
  }

  lemma OneMore(k: nat, m: nat)
    ensures (k + 1) * m == k * m + m
  {}

  lemma {:induction false} BurstsAdmitted(l: Limit, addr: string, now: real, k: nat)
    ensures AllAdmitted(l, Bursts(l, addr, now, k), addr, k)
  {
    if k == 0 {
      BurstAdmitted(l, Burst(l, addr, now), addr, now, 0);
    } else {
      BurstsAdmitted(l, addr, now, k - 1);
      TickThenBurst(l, Bursts(l, addr, now, k - 1), addr, now);
      OneMore(k, l.burst);
    }
  }

  /**
  The admin bound is reached for every number of ticks: k ticks in a window of no length let k + 1
  whole bursts through, where the public limiter never lets more than one.
  */
  lemma AdminBoundReached(l: Limit, addr: string, now: real, k: nat)
    requires now >= 0.0
    ensures var ops := Bursts(l, addr, now, k);
            && Ordered(ops) && Ticks(ops, 0, |ops|) == k
            && Admissions(DropAll, l, ops, addr, 0, |ops|) == (k + 1) * l.burst
            && Admissions(DropFull, l, ops, addr, 0, |ops|) <= l.burst
  {
    var ops := Bursts(l, addr, now, k);
    BurstsAdmitted(l, addr, now, k);
    if ops != [] { PublicBudget(l, ops, addr, 0, |ops|); }
  }

  lemma TickClears(l: Limit, ops: seq<Op>, addr: string, now: real, i: nat)
    requires i < |ops| && ops[i].Tick?
    ensures TokensAt(l, After(DropAll, l, ops, i + 1), addr, now) == l.burst as real
    ensures Admissions(DropAll, l, ops, addr, 0, i + 1) == Admissions(DropAll, l, ops, addr, 0, i)
    ensures Ticks(ops, 0, i + 1) == Ticks(ops, 0, i) + 1
  {}

  // ---------------------------------------------------------------------------
  // When the admin tick is harmless

  /** Every bucket in the map is back at full burst. */
  ghost predicate AllFull(l: Limit, s: Buckets, now: real) {
    forall a :: a in s ==> Tokens(l, s[a], now) == l.burst as real
  }

  /** Dropping every bucket cannot be noticed, now or later, if and only if every bucket is full. */
  lemma TickHarmlessIff(l: Limit, s: Buckets, now: real)
    ensures Same(l, Post(DropAll, l, s, Tick(now)), s, now) <==> AllFull(l, s, now)
  {
    var s' := Post(DropAll, l, s, Tick(now));
    if AllFull(l, s, now) {
      forall a ensures SameFrom(l, s', s, a, now) {
        forall t: real | t >= now ensures TokensAt(l, s', a, t) == TokensAt(l, s, a, t) {
          if a in s { FullStaysFull(l, s[a], now, t); }
        }
      }
    } else {
      var a :| a in s && Tokens(l, s[a], now) != l.burst as real;
      assert TokensAt(l, s', a, now) != TokensAt(l, s, a, now);
      assert !SameFrom(l, s', s, a, now);
    }
  }

  /** Every tick among the first `n` operations finds the admin limiter with full buckets only. */
  ghost predicate HarmlessTicks(l: Limit, ops: seq<Op>, n: nat)
    requires n <= |ops|
  {
    forall i :: 0 <= i < n && ops[i].Tick? ==> AllFull(l, After(DropAll, l, ops, i), ops[i].now)
  }

  /** One operation keeps the admin limiter and one that drops nothing in agreement, harmless ticks included. */
  lemma AdminSameAfter(l: Limit, s: Buckets, r: Buckets, op: Op)
    requires Same(l, s, r, op.now) && (op.Tick? ==> AllFull(l, s, op.now))
    ensures Admits(l, s, op) <==> Admits(l, r, op)
    ensures Same(l, Post(DropAll, l, s, op), Post(KeepAll, l, r, op), op.now)
  {
    if op.Request? {
      SameAfter(l, s, r, op);
    } else {
      TickHarmlessIff(l, s, op.now);
      var s' := Post(DropAll, l, s, op);
      forall a ensures SameFrom(l, s', r, a, op.now) {
        assert SameFrom(l, s', s, a, op.now) && SameFrom(l, s, r, a, op.now);
      }
    }
  }

  lemma SameLater(l: Limit, s: Buckets, r: Buckets, now: real, later: real)
    requires Same(l, s, r, now) && now <= later
    ensures Same(l, s, r, later)
  {
    forall a ensures SameFrom(l, s, r, a, later) { assert SameFrom(l, s, r, a, now); }
  }

  lemma {:induction false} AdminSameAt(l: Limit, ops: seq<Op>, i: nat)
    requires Ordered(ops) && i < |ops| && HarmlessTicks(l, ops, i)
    ensures Same(l, After(DropAll, l, ops, i), After(KeepAll, l, ops, i), ops[i].now)
  {
    if i > 0 {
      AdminSameAt(l, ops, i - 1);
      AdminSameAfter(l, After(DropAll, l, ops, i - 1), After(KeepAll, l, ops, i - 1), ops[i - 1]);
      SameLater(l, After(DropAll, l, ops, i), After(KeepAll, l, ops, i), ops[i - 1].now, ops[i].now);
    }
  }

  /** As long as ticks find only full buckets, the admin limiter admits what one that never deletes admits. */
  lemma AdminAgrees(l: Limit, ops: seq<Op>, i: nat)
    requires Ordered(ops) && i < |ops| && HarmlessTicks(l, ops, i)
    ensures Admitted(DropAll, l, ops, i) <==> Admitted(KeepAll, l, ops, i)
  {
    AdminSameAt(l, ops, i);
    if ops[i].Request? {
      AdminSameAfter(l, After(DropAll, l, ops, i), After(KeepAll, l, ops, i), ops[i]);
    }
  }

  lemma {:induction false} AfterPrefix(p: Policy, l: Limit, ops: seq<Op>, more: seq<Op>, i: nat)
    requires i <= |ops|
    ensures After(p, l, ops + more, i) == After(p, l, ops, i)
  {
    if i > 0 {
      AfterPrefix(p, l, ops, more, i - 1);
      assert (ops + more)[i - 1] == ops[i - 1];
    }
  }

  /** `n` requests of one address at one instant. */
  function Volley(addr: string, now: real, n: nat): (ops: seq<Op>)
    ensures |ops| == n && forall i :: 0 <= i < n ==> ops[i] == Request(addr, now)
  {
    seq(n, _ => Request(addr, now))
  }

  /**
  Right after the first tick that drops a bucket with `tokens` left of its burst, floor(tokens) + 1
  requests at that instant tell the admin limiter from one that never deletes: the last is admitted
  by the one and denied by the other.
  */
  lemma TickExposed(l: Limit, ops: seq<Op>, i: nat, addr: string) returns (tokens: real, run: seq<Op>)
    requires Ordered(ops) && i < |ops| && 0.0 <= ops[0].now && ops[i].Tick? && HarmlessTicks(l, ops, i)
    requires addr in After(DropAll, l, ops, i)
    requires TokensAt(l, After(DropAll, l, ops, i), addr, ops[i].now) < l.burst as real
    ensures tokens == TokensAt(l, After(DropAll, l, ops, i), addr, ops[i].now) >= 0.0
    ensures run == ops[..i + 1] + Volley(addr, ops[i].now, tokens.Floor + 1) && Ordered(run)
    ensures Admitted(DropAll, l, run, |run| - 1) && !Admitted(KeepAll, l, run, |run| - 1)
  {
    tokens := TokensAt(l, After(DropAll, l, ops, i), addr, ops[i].now);
    TokensBeforeTick(l, ops, i, addr);
    FloorFits(tokens, l.burst);
    run := VolleyAfterTick(l, ops, i, addr, tokens);
  }

  lemma VolleyAfterTick(l: Limit, ops: seq<Op>, i: nat, addr: string, tokens: real) returns (run: seq<Op>)
    requires Ordered(ops) && i < |ops| && ops[i].Tick? && 0.0 <= tokens < l.burst as real && tokens.Floor >= 0
    requires TokensAt(l, After(KeepAll, l, ops, i), addr, ops[i].now) == tokens
    ensures run == ops[..i + 1] + Volley(addr, ops[i].now, tokens.Floor + 1) && Ordered(run)
    ensures Admitted(DropAll, l, run, |run| - 1) && !Admitted(KeepAll, l, run, |run| - 1)
  {
    var volley := Volley(addr, ops[i].now, tokens.Floor + 1);
    run := ops[..i + 1] + volley;
    TickInRun(l, ops, i, addr, volley);
    OrderedVolley(ops, i, addr, tokens.Floor + 1);
    VolleyTells(l, run, addr, ops[i].now, i + 1, tokens);
  }

  lemma TokensBeforeTick(l: Limit, ops: seq<Op>, i: nat, addr: string)
    requires Ordered(ops) && i < |ops| && 0.0 <= ops[0].now && HarmlessTicks(l, ops, i)
    ensures 0.0 <= TokensAt(l, After(DropAll, l, ops, i), addr, ops[i].now)
    ensures TokensAt(l, After(DropAll, l, ops, i), addr, ops[i].now)
            == TokensAt(l, After(KeepAll, l, ops, i), addr, ops[i].now)
  {
    InvAt(DropAll, l, ops, i);
    TokensGrow(l, After(DropAll, l, ops, i), addr, Before(ops, i), ops[i].now);
    AdminSameAt(l, ops, i);
    assert SameFrom(l, After(DropAll, l, ops, i), After(KeepAll, l, ops, i), addr, ops[i].now);
  }

  lemma OrderedVolley(ops: seq<Op>, i: nat, addr: string, n: nat)
    requires Ordered(ops) && i < |ops|
    ensures Ordered(ops[..i + 1] + Volley(addr, ops[i].now, n))
  {
    var run := ops[..i + 1] + Volley(addr, ops[i].now, n);
    assert forall k :: 0 <= k < |run| ==> run[k].now == if k <= i then ops[k].now else ops[i].now;
  }

  lemma FloorFits(tokens: real, burst: nat)
    requires 0.0 <= tokens < burst as real
    ensures 0 <= tokens.Floor < burst && tokens.Floor as real <= tokens < (tokens.Floor + 1) as real
  {}

  lemma AdmittedAfterDrain(p: Policy, l: Limit, run: seq<Op>, addr: string, now: real, from: nat, n: nat, tokens: real)
    requires from + n < |run| && n as real <= tokens <= l.burst as real
    requires forall i :: from <= i <= from + n ==> run[i] == Request(addr, now)
    requires TokensAt(l, After(p, l, run, from), addr, now) == tokens
    ensures Admitted(p, l, run, from + n) <==> tokens - n as real >= 1.0
  {
    Drain(p, l, run, addr, now, from, n, tokens);
    assert run[from + n] == Request(addr, now);
  }

  lemma VolleyTells(l: Limit, run: seq<Op>, addr: string, now: real, from: nat, tokens: real)
    requires 0.0 <= tokens < l.burst as real && |run| == from + tokens.Floor + 1
    requires forall i :: from <= i < |run| ==> run[i] == Request(addr, now)
    requires TokensAt(l, After(KeepAll, l, run, from), addr, now) == tokens
    requires TokensAt(l, After(DropAll, l, run, from), addr, now) == l.burst as real
    ensures Admitted(DropAll, l, run, from + tokens.Floor) && !Admitted(KeepAll, l, run, from + tokens.Floor)
  {
    FloorFits(tokens, l.burst);
    AdmittedAfterDrain(KeepAll, l, run, addr, now, from, tokens.Floor, tokens);
    AdmittedAfterDrain(DropAll, l, run, addr, now, from, tokens.Floor, l.burst as real);
  }

  /** The buckets of both limiters after a tick, in any continuation of the run. */
  lemma TickInRun(l: Limit, ops: seq<Op>, i: nat, addr: string, more: seq<Op>)
    requires i < |ops| && ops[i].Tick?
    ensures var run := ops[..i + 1] + more;
            && TokensAt(l, After(DropAll, l, run, i + 1), addr, ops[i].now) == l.burst as real
            && TokensAt(l, After(KeepAll, l, run, i + 1), addr, ops[i].now)
               == TokensAt(l, After(KeepAll, l, ops, i), addr, ops[i].now)
  {
    var run := ops[..i + 1] + more;
    assert ops[..i + 1] + ops[i + 1..] == ops;
    AfterPrefix(KeepAll, l, ops[..i + 1], more, i);
    AfterPrefix(KeepAll, l, ops[..i + 1], ops[i + 1..], i);
    assert run[i] == ops[i];
  }

  ghost predicate OnlyRequests(more: seq<Op>) {
    forall i :: 0 <= i < |more| ==> more[i].Request?
  }

  /** No requests made at any point of the run could tell the admin limiter from one that never deletes. */
  ghost predicate Indistinguishable(l: Limit, ops: seq<Op>) {
    forall n, more, i :: 0 <= n <= |ops| && OnlyRequests(more) && Ordered(ops[..n] + more) && 0 <= i < n + |more|
                         ==> (Admitted(DropAll, l, ops[..n] + more, i) <==> Admitted(KeepAll, l, ops[..n] + more, i))
  }

  lemma HarmlessPrefix(l: Limit, ops: seq<Op>, n: nat, more: seq<Op>)
    requires n <= |ops| && OnlyRequests(more) && HarmlessTicks(l, ops, |ops|)
    ensures HarmlessTicks(l, ops[..n] + more, n + |more|)
  {
    var run := ops[..n] + more;
    assert ops[..n] + ops[n..] == ops;
    forall i | 0 <= i < n + |more| && run[i].Tick? ensures AllFull(l, After(DropAll, l, run, i), run[i].now) {
      assert i < n;
      AfterPrefix(DropAll, l, ops[..n], more, i);
      AfterPrefix(DropAll, l, ops[..n], ops[n..], i);
      assert run[i] == ops[i];
    }
  }

  lemma {:induction false} FirstHarmfulTick(l: Limit, ops: seq<Op>, n: nat) returns (i: nat, addr: string)
    requires n <= |ops| && !HarmlessTicks(l, ops, n)
    ensures i < n && ops[i].Tick? && HarmlessTicks(l, ops, i) && addr in After(DropAll, l, ops, i)
    ensures TokensAt(l, After(DropAll, l, ops, i), addr, ops[i].now) < l.burst as real
  {
    if HarmlessTicks(l, ops, n - 1) {
      i := n - 1;
      addr :| addr in After(DropAll, l, ops, i) && Tokens(l, After(DropAll, l, ops, i)[addr], ops[i].now) != l.burst as real;
    } else {
      i, addr := FirstHarmfulTick(l, ops, n - 1);
    }
  }

  /**
  Clearing the admin map is unobservable in a run, whatever requests are tried at any point of it,
  if and only if every tick finds only full buckets.
  */
  lemma AdminUnobservableIff(l: Limit, ops: seq<Op>)
    requires Ordered(ops) && (ops != [] ==> 0.0 <= ops[0].now)
    ensures Indistinguishable(l, ops) <==> HarmlessTicks(l, ops, |ops|)
  {
    if HarmlessTicks(l, ops, |ops|) {
      forall n, more, i | 0 <= n <= |ops| && OnlyRequests(more) && Ordered(ops[..n] + more) && 0 <= i < n + |more|
        ensures Admitted(DropAll, l, ops[..n] + more, i) <==> Admitted(KeepAll, l, ops[..n] + more, i)
      {
        HarmlessPrefix(l, ops, n, more);
        AdminAgrees(l, ops[..n] + more, i);
      }
    } else {
      var i, addr := FirstHarmfulTick(l, ops, |ops|);
      var tokens, run := TickExposed(l, ops, i, addr);
      assert OnlyRequests(Volley(addr, ops[i].now, tokens.Floor + 1));
    }
  }

  // ---------------------------------------------------------------------------
  // The limiters

  lemma RunSnoc(p: Policy, l: Limit, ops: seq<Op>, op: Op)
    requires Ordered(ops) && (|ops| > 0 ==> ops[|ops| - 1].now <= op.now)
    ensures Ordered(ops + [op])
    ensures After(p, l, ops + [op], |ops| + 1) == Post(p, l, After(p, l, ops, |ops|), op)
    ensures Admitted(p, l, ops + [op], |ops|) <==> Admits(l, After(p, l, ops, |ops|), op)
  {
    AfterPrefix(p, l, ops, [op], |ops|);
  }

  /** Finds or creates the address's bucket and takes a token from it if there is one. */
  method TakeToken(limit: Limit, s: Buckets, addr: string, now: real) returns (ok: bool, s': Buckets)
    ensures ok == Admits(limit, s, Request(addr, now))
    ensures forall p :: s' == Post(p, limit, s, Request(addr, now))
    ensures addr !in s ==> (ok <==> limit.burst >= 1)
    ensures addr in s ==> (ok <==> Grown(limit, s[addr].tokens, now - s[addr].last) >= 1.0)
    ensures forall a :: a != addr ==> (a in s' <==> a in s) && (a in s ==> s'[a] == s[a])
  {
    FreshIsFull(limit, now);
    if addr in s { TokensGrown(limit, s[addr], now); }
    s' := s;
    if addr !in s' {
      s' := s'[addr := Fresh(limit)];
    }
    var available := Tokens(limit, s'[addr], now);
    ok := available >= 1.0;
    if ok {
      s' := s'[addr := Bucket(available - 1.0, now)];
    }
  }

  /** The public limiter's answer to the last request of a run: its level, and what never forgetting would answer. */
  ghost predicate PublicAnswer(l: Limit, ops: seq<Op>, ok: bool)
    requires ops != [] && ops[|ops| - 1].Request?
  {
    var n, op := |ops| - 1, ops[|ops| - 1];
    && (ok <==> Admitted(DropFull, l, ops, n))
    && (ok <==> Admitted(KeepAll, l, ops, n))
    && (ok <==> Level(DropFull, l, ops, op.addr, n, op.now) >= 1.0)
  }

  lemma PublicAnswers(l: Limit, ops: seq<Op>, ok: bool)
    requires Ordered(ops) && ops != [] && ops[|ops| - 1].Request? && (ok <==> Admitted(DropFull, l, ops, |ops| - 1))
    ensures PublicAnswer(l, ops, ok)
  {
    CleanupUnobservable(l, ops, |ops| - 1);
    AdmittedExact(DropFull, l, ops, |ops| - 1);
  }

  /** The admin limiter's: its level, and never forgetting while every tick found only full buckets. */
  ghost predicate AdminAnswer(l: Limit, ops: seq<Op>, ok: bool)
    requires ops != [] && ops[|ops| - 1].Request?
  {
    var n, op := |ops| - 1, ops[|ops| - 1];
    && (ok <==> Admitted(DropAll, l, ops, n))
    && (HarmlessTicks(l, ops, n) ==> (ok <==> Admitted(KeepAll, l, ops, n)))
    && (ok <==> Level(DropAll, l, ops, op.addr, n, op.now) >= 1.0)
  }

  lemma AdminAnswers(l: Limit, ops: seq<Op>, ok: bool)
    requires Ordered(ops) && ops != [] && ops[|ops| - 1].Request? && (ok <==> Admitted(DropAll, l, ops, |ops| - 1))
    ensures AdminAnswer(l, ops, ok)
  {
    AdmittedExact(DropAll, l, ops, |ops| - 1);
    if HarmlessTicks(l, ops, |ops| - 1) { AdminAgrees(l, ops, |ops| - 1); }
  }

  class RateLimiter {
    const limit: Limit
    var visitors: Buckets
    ghost var ops: seq<Op>

    /** The map is always the end of a run of requests and ticks. */
    ghost predicate Valid()
      reads this
    {
      Ordered(ops) && visitors == After(DropFull, limit, ops, |ops|)
    }

    ghost predicate NotBefore(now: real)
      reads this
    {
      |ops| > 0 ==> ops[|ops| - 1].now <= now
    }

    constructor (limit: Limit)
      ensures Valid() && ops == [] && this.limit == limit
    {
      this.limit := limit;
      visitors := map[];
      ops := [];
    }

    /** Answers exactly what a limiter that never forgets a visitor would. */
    method Allow(addr: string, now: real) returns (ok: bool)
      requires Valid() && NotBefore(now)
      modifies this
      ensures Valid() && ops == old(ops) + [Request(addr, now)]
      ensures PublicAnswer(limit, ops, ok)
    {
      RunSnoc(DropFull, limit, ops, Request(addr, now));
      ok, visitors := TakeToken(limit, visitors, addr, now);
      ops := ops + [Request(addr, now)];
      PublicAnswers(limit, ops, ok);
    }

    /** Drops every bucket that is back at full burst. */
    method Cleanup(now: real)
      requires Valid() && NotBefore(now)
      modifies this
      ensures Valid() && ops == old(ops) + [Tick(now)]
    {
      RunSnoc(DropFull, limit, ops, Tick(now));
      visitors := BelowFull(limit, visitors, now);
      ops := ops + [Tick(now)];
    }
  }

  method BelowFull(limit: Limit, all: Buckets, now: real) returns (kept: Buckets)
    ensures kept == Post(DropFull, limit, all, Tick(now))
    ensures forall a :: a in all ==>
              (a in kept <==> Grown(limit, all[a].tokens, now - all[a].last) < limit.burst as real)
  {
    kept := all;
    var remaining := all.Keys;
    while remaining != {}
      invariant remaining <= kept.Keys <= all.Keys
      invariant forall a :: a in kept ==> kept[a] == all[a]
      invariant forall a :: a in all && a !in remaining ==>
                  (a in kept <==> Tokens(limit, all[a], now) < limit.burst as real)
      decreases |remaining|
    {
      var a :| a in remaining;
      remaining := remaining - {a};
      if Tokens(limit, kept[a], now) >= limit.burst as real {
        kept := kept - {a};
      }
    }
    forall a | a in all ensures Tokens(limit, all[a], now) == Grown(limit, all[a].tokens, now - all[a].last) {
      TokensGrown(limit, all[a], now);
    }
  }

  class AdminRateLimiter {
    const limit: Limit
    var clients: Buckets
    ghost var ops: seq<Op>

    ghost predicate Valid()
      reads this
    {
      Ordered(ops) && clients == After(DropAll, limit, ops, |ops|)
    }

    ghost predicate NotBefore(now: real)
      reads this
    {
      |ops| > 0 ==> ops[|ops| - 1].now <= now
    }

    constructor (limit: Limit)
      ensures Valid() && ops == [] && this.limit == limit
    {
      this.limit := limit;
      clients := map[];
      ops := [];
    }

    /** Does so too as long as every tick found only full buckets. */
    method Allow(addr: string, now: real) returns (ok: bool)
      requires Valid() && NotBefore(now)
      modifies this
      ensures Valid() && ops == old(ops) + [Request(addr, now)]
      ensures AdminAnswer(limit, ops, ok)
    {
      RunSnoc(DropAll, limit, ops, Request(addr, now));
      ok, clients := TakeToken(limit, clients, addr, now);
      ops := ops + [Request(addr, now)];
      AdminAnswers(limit, ops, ok);
    }

    /** Drops every bucket, full or not. */
    method Cleanup(now: real)
      requires Valid() && NotBefore(now)
      modifies this
      ensures Valid() && ops == old(ops) + [Tick(now)] && clients == map[]
    {
      RunSnoc(DropAll, limit, ops, Tick(now));
      var remaining := clients.Keys;
      while remaining != {}
        modifies this`clients
        invariant clients.Keys == remaining
        decreases |remaining|
      {
        var a :| a in remaining;
        remaining := remaining - {a};
        clients := clients - {a};
      }
      ops := ops + [Tick(now)];
    }
  }
}
