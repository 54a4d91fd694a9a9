/**
Timestamps as the SQLite adapter stores and compares them: RFC3339Nano text, whose fraction has
its trailing zeros cut off, under byte order (internal/adapters/sqlite/db.go:404-406).
*/
module SqliteTime {
  import opened Durations
  import opened Text

  predicate LessAt(a: string, b: string, p: nat) {
    && p <= |a| && p < |b| && a[..p] == b[..p]
    && (p == |a| || a[p] < b[p])
  }

  /** Byte order of texts. */
  predicate Less(a: string, b: string) {
    exists p :: 0 <= p < |b| && LessAt(a, b, p)
  }

  lemma LessAsymmetric(a: string, b: string)
    requires Less(a, b)
    ensures !Less(b, a)
  {}

  lemma LessIrreflexive(a: string)
    ensures !Less(a, a)
  {}

  lemma {:induction false} LessTotal(a: string, b: string)
    ensures Less(a, b) || Less(b, a) || a == b
  {
    if a == "" || b == "" || a[0] != b[0] {
      assert a != "" ==> b == "" || a[0] > b[0] ==> LessAt(b, a, 0);
      assert b != "" ==> a == "" || a[0] < b[0] ==> LessAt(a, b, 0);
    } else {
      LessTotal(a[1..], b[1..]);
      assert a == [a[0]] + a[1..] && b == [b[0]] + b[1..];
      if Less(a[1..], b[1..]) { LessUnder([a[0]], a[1..], b[1..]); }
      if Less(b[1..], a[1..]) { LessUnder([a[0]], b[1..], a[1..]); }
    }
  }

  lemma LessUnder(pre: string, a: string, b: string)
    requires Less(a, b)
    ensures Less(pre + a, pre + b)
  {
    var p :| 0 <= p < |b| && LessAt(a, b, p);
    assert (pre + a)[..|pre| + p] == pre + a[..p] && (pre + b)[..|pre| + p] == pre + b[..p];
    assert LessAt(pre + a, pre + b, |pre| + p);
  }

  lemma LessBefore(a: string, b: string, x: string, y: string)
    requires |a| == |b| && Less(a, b)
    ensures Less(a + x, b + y)
  {
    var p :| 0 <= p < |b| && LessAt(a, b, p);
    assert (a + x)[..p] == a[..p] && (b + y)[..p] == b[..p];
    assert LessAt(a + x, b + y, p);
  }

  // ---------------------------------------------------------------------------
  // The text of an instant

  function Pow10(k: nat): nat {
    if k == 0 then 1 else 10 * Pow10(k - 1)
  }

  /** The last `k` decimal digits of `n`, zeros in front. */
  function Padded(k: nat, n: nat): (s: string)
    ensures |s| == k && forall i :: 0 <= i < k ==> '0' <= s[i] <= '9'
  {
    if k == 0 then "" else Padded(k - 1, n / 10) + [Digit(n % 10)]
  }

  function CutZeros(s: string): string {
    if s != "" && s[|s| - 1] == '0' then CutZeros(s[..|s| - 1]) else s
  }

  /** The fraction of a second, without trailing zeros; empty at a whole second. */
  function Fraction(t: nat): string {
    CutZeros(Padded(9, t % SECOND))
  }

  function Tail(fraction: string): string {
    if fraction == "" then "Z" else "." + fraction + "Z"
  }

  /** The first second of the year 10000, where the text would grow a digit. */
  const END: nat := 253_402_300_800

  function InstantText(stamp: nat -> string, t: nat): string {
    stamp(t / SECOND) + Tail(Fraction(t))
  }

  /** What the calendar text of whole seconds provides: one width, and its order is time's. */
  ghost predicate FaithfulStamp(stamp: nat -> string) {
    forall a: nat, b: nat :: a < b < END ==> |stamp(a)| == |stamp(b)| && Less(stamp(a), stamp(b))
  }

  // ---------------------------------------------------------------------------
  // Digits

  lemma {:induction false} PaddedOrder(k: nat, m: nat, n: nat)
    requires m < n < Pow10(k)
    ensures Less(Padded(k, m), Padded(k, n))
  {
    if m / 10 < n / 10 {
      PaddedOrder(k - 1, m / 10, n / 10);
      LessBefore(Padded(k - 1, m / 10), Padded(k - 1, n / 10), [Digit(m % 10)], [Digit(n % 10)]);
    } else {
      assert m % 10 < n % 10;
      assert LessAt([Digit(m % 10)], [Digit(n % 10)], 0);
      LessUnder(Padded(k - 1, m / 10), [Digit(m % 10)], [Digit(n % 10)]);
    }
  }

  lemma {:induction false} CutZerosPrefix(s: string)
    ensures CutZeros(s) <= s
    ensures forall i :: |CutZeros(s)| <= i < |s| ==> s[i] == '0'
  {
    if s != "" && s[|s| - 1] == '0' { CutZerosPrefix(s[..|s| - 1]); }
  }

  predicate ProperPrefix(a: string, b: string) {
    |a| < |b| && a == b[..|a|]
  }

  /** Cut digit strings keep their order, except that one may become a prefix of the other. */
  lemma CutOrder(a: string, b: string)
    requires |a| == |b| && Less(a, b) && forall i :: 0 <= i < |a| ==> '0' <= a[i] <= '9' && '0' <= b[i] <= '9'
    ensures ProperPrefix(CutZeros(a), CutZeros(b))
            || exists p: nat :: p < |CutZeros(a)| && LessAt(CutZeros(a), CutZeros(b), p)
  {
    var p :| 0 <= p < |b| && LessAt(a, b, p);
    var f, g := CutZeros(a), CutZeros(b);
    CutZerosPrefix(a);
    CutZerosPrefix(b);
    assert b[p] != '0';
    assert p < |g|;
    if p < |f| {
      assert f[..p] == a[..p] == b[..p] == g[..p];
      assert LessAt(f, g, p);
    } else {
      assert f == a[..p][..|f|] == b[..p][..|f|] == g[..|f|];
    }
  }

  // ---------------------------------------------------------------------------
  // Order

  lemma TailOfPrefix(f: string, g: string)
    requires ProperPrefix(f, g) && forall i :: 0 <= i < |g| ==> '0' <= g[i] <= '9'
    ensures Less(Tail(g), Tail(f))
  {
    if f == "" {
      assert LessAt(Tail(g), Tail(f), 0);
    } else {
      assert Tail(g)[..1 + |f|] == "." + g[..|f|] && Tail(f)[..1 + |f|] == "." + f;
      assert Tail(g)[1 + |f|] == g[|f|] && Tail(f)[1 + |f|] == 'Z';
      assert LessAt(Tail(g), Tail(f), 1 + |f|);
    }
  }

  lemma TailOfLess(f: string, g: string, p: nat)
    requires p < |f| && LessAt(f, g, p)
    ensures Less(Tail(f), Tail(g))
  {
    assert Tail(f)[..1 + p] == "." + f[..p] && Tail(g)[..1 + p] == "." + g[..p];
    assert LessAt(Tail(f), Tail(g), 1 + p);
  }

  lemma TextOfPrefix(stamp: nat -> string, t: nat, u: nat)
    requires t / SECOND == u / SECOND && ProperPrefix(Fraction(t), Fraction(u))
    ensures Less(InstantText(stamp, u), InstantText(stamp, t))
  {
    CutZerosPrefix(Padded(9, u % SECOND));
    TailOfPrefix(Fraction(t), Fraction(u));
    LessUnder(stamp(t / SECOND), Tail(Fraction(u)), Tail(Fraction(t)));
  }

  /**
  Text order against time order, exactly: an earlier instant sorts before a later one unless both
  fall in one second and the earlier fraction is a proper prefix of the later one.
  */
  lemma TextOrderExact(stamp: nat -> string, t: nat, u: nat)
    requires FaithfulStamp(stamp) && t < u < END * SECOND
    ensures Less(InstantText(stamp, t), InstantText(stamp, u)) <==>
            !(t / SECOND == u / SECOND && ProperPrefix(Fraction(t), Fraction(u)))
  {
    var a, b := t / SECOND, u / SECOND;
    if a < b {
      LessBefore(stamp(a), stamp(b), Tail(Fraction(t)), Tail(Fraction(u)));
    } else if ProperPrefix(Fraction(t), Fraction(u)) {
      TextOfPrefix(stamp, t, u);
      LessAsymmetric(InstantText(stamp, u), InstantText(stamp, t));
    } else {
      var m, n := t % SECOND, u % SECOND;
      NineDigits();
      PaddedOrder(9, m, n);
      CutOrder(Padded(9, m), Padded(9, n));
      var p: nat :| p < |Fraction(t)| && LessAt(Fraction(t), Fraction(u), p);
      TailOfLess(Fraction(t), Fraction(u), p);
      LessUnder(stamp(a), Tail(Fraction(t)), Tail(Fraction(u)));
    }
  }

  /**
  The cleanup that deletes rows whose expiry text is below the text of `now` takes a row that has
  not expired exactly when both instants share a second and the fraction of `now` is a proper
  prefix of the fraction of the expiry.
  */
  lemma EarlyPurgeExact(stamp: nat -> string, now: nat, expiry: nat)
    requires FaithfulStamp(stamp) && now < expiry < END * SECOND
    ensures Less(InstantText(stamp, expiry), InstantText(stamp, now)) <==>
            now / SECOND == expiry / SECOND && ProperPrefix(Fraction(now), Fraction(expiry))
  {
    TextOrderExact(stamp, now, expiry);
    if now / SECOND == expiry / SECOND && ProperPrefix(Fraction(now), Fraction(expiry)) {
      TextOfPrefix(stamp, now, expiry);
    } else {
      LessAsymmetric(InstantText(stamp, now), InstantText(stamp, expiry));
    }
  }

  lemma EarlierSecondFirst(stamp: nat -> string, t: nat, u: nat)
    requires FaithfulStamp(stamp) && t / SECOND < u / SECOND < END
    ensures Less(InstantText(stamp, t), InstantText(stamp, u))
  {
    LessBefore(stamp(t / SECOND), stamp(u / SECOND), Tail(Fraction(t)), Tail(Fraction(u)));
  }

  /** A cut-off compared as text is off by less than a second. */
  lemma TextOrderWithinSecond(stamp: nat -> string, t: nat, u: nat)
    requires FaithfulStamp(stamp) && t < END * SECOND && u < END * SECOND
    requires Less(InstantText(stamp, t), InstantText(stamp, u))
    ensures t / SECOND <= u / SECOND
  {
    if u / SECOND < t / SECOND {
      LessBefore(stamp(u / SECOND), stamp(t / SECOND), Tail(Fraction(u)), Tail(Fraction(t)));
      LessAsymmetric(InstantText(stamp, u), InstantText(stamp, t));
    }
  }

  lemma SecondsOf(s: nat, n: nat)
    requires n < SECOND
    ensures (s * SECOND + n) / SECOND == s && (s * SECOND + n) % SECOND == n
  {}

  lemma FractionNonEmpty(n: nat)
    requires 0 < n < SECOND
    ensures CutZeros(Padded(9, 0)) == "" && CutZeros(Padded(9, n)) != ""
  {
    NineDigits();
    AllZeros(9);
    PaddedOrder(9, 0, n);
    CutOrder(Padded(9, 0), Padded(9, n));
  }

  /** A whole second sorts after every later instant of that second. */
  lemma WholeSecondSortsLast(stamp: nat -> string, s: nat, n: nat)
    requires 0 < n < SECOND
    ensures Less(InstantText(stamp, s * SECOND + n), InstantText(stamp, s * SECOND))
  {
    SecondsOf(s, 0);
    SecondsOf(s, n);
    FractionNonEmpty(n);
    TextOfPrefix(stamp, s * SECOND, s * SECOND + n);
  }

  lemma NineDigits()
    ensures Pow10(9) == SECOND
  {}

  lemma {:induction false} AllZeros(k: nat)
    ensures CutZeros(Padded(k, 0)) == ""
  {
    if k > 0 {
      AllZeros(k - 1);
      assert Padded(k, 0)[..k - 1] == Padded(k - 1, 0);
    }
  }

  /** Such a text of whole seconds exists. */
  lemma FaithfulStampExists()
    ensures FaithfulStamp((n: nat) => Padded(12, n))
  {
    NineDigits();
    assert END < Pow10(12);
    forall a: nat, b: nat | a < b < END ensures Less(Padded(12, a), Padded(12, b)) {
      PaddedOrder(12, a, b);
    }
  }
}
