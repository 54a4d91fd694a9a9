/**
How a store compares timestamps.  `Exact` is comparison to the nanosecond.  Postgres columns keep
whole microseconds (migrations/postgres/001_initial.up.sql:239-242).  SQLite columns hold
RFC3339Nano text under byte order (internal/adapters/sqlite/db.go:404-406).
*/
module StoreTime {
  import opened Durations
  import opened SqliteTime

  /** `text` is the text SQLite stores for an instant. */
  datatype Backend = Exact | Postgres | Sqlite(text: nat -> string)

  /** The store's own verdict on "t < u". */
  predicate Below(b: Backend, t: nat, u: nat) {
    match b
    case Exact => t < u
    case Postgres => t / MICROSECOND < u / MICROSECOND
    case Sqlite(text) => Less(text(t), text(u))
  }

  ghost predicate Prints(text: nat -> string, stamp: nat -> string) {
    FaithfulStamp(stamp) && forall t: nat {:trigger InstantText(stamp, t)} :: text(t) == InstantText(stamp, t)
  }

  /** The text is RFC3339Nano over some faithful text of whole seconds. */
  ghost predicate Sound(b: Backend) {
    b.Sqlite? ==> exists stamp :: Prints(b.text, stamp)
  }

  /** Instants the store can write in order: for text, those of the years up to 9999. */
  predicate Holds(b: Backend, t: nat) {
    b.Sqlite? ==> t < END * SECOND
  }

  lemma HoldsEarlier(b: Backend, t: nat, u: nat)
    requires Holds(b, u) && t <= u
    ensures Holds(b, t)
  {}

  /** Both instants in one second, and the text of the earlier fraction begins that of the later. */
  predicate PrefixPair(t: nat, u: nat) {
    t / SECOND == u / SECOND && ProperPrefix(Fraction(t), Fraction(u))
  }

  /** The pairs of instants, earlier first, that the store does not put in their order. */
  predicate Blurred(b: Backend, t: nat, u: nat) {
    match b
    case Exact => false
    case Postgres => t / MICROSECOND == u / MICROSECOND
    case Sqlite(_) => PrefixPair(t, u)
  }

  /** Store order against time order, exactly; only text ever turns two instants round. */
  lemma StoreOrderExact(b: Backend, t: nat, u: nat)
    requires Sound(b) && t < u && Holds(b, u)
    ensures Below(b, t, u) <==> !Blurred(b, t, u)
    ensures Below(b, u, t) <==> b.Sqlite? && PrefixPair(t, u)
  {
    if b.Sqlite? {
      var stamp :| Prints(b.text, stamp);
      TextOrderExact(stamp, t, u);
      EarlyPurgeExact(stamp, t, u);
    }
  }

  /** No store is off by a whole second. */
  lemma StoreOrderWithinSecond(b: Backend, t: nat, u: nat)
    requires Sound(b) && Holds(b, t) && Holds(b, u) && Below(b, t, u)
    ensures t / SECOND <= u / SECOND
  {
    if b.Sqlite? {
      var stamp :| Prints(b.text, stamp);
      TextOrderWithinSecond(stamp, t, u);
    }
  }

  lemma EarlierSecondBelow(b: Backend, t: nat, u: nat)
    requires Sound(b) && Holds(b, u) && t / SECOND < u / SECOND
    ensures Below(b, t, u)
  {
    if b.Sqlite? {
      var stamp :| Prints(b.text, stamp);
      EarlierSecondFirst(stamp, t, u);
    }
  }

  /** As text, an instant sorts below the beginning of its own second. */
  lemma BelowOwnSecond(b: Backend, t: nat, s: nat)
    requires b.Sqlite? && Sound(b) && s * SECOND < t < s * SECOND + SECOND
    ensures Below(b, t, s * SECOND)
  {
    var stamp :| Prints(b.text, stamp);
    WholeSecondSortsLast(stamp, s, t - s * SECOND);
  }

  /** Instants the store cannot tell apart. */
  predicate Tied(b: Backend, t: nat, u: nat) {
    !Below(b, t, u) && !Below(b, u, t)
  }

  lemma TiedExact(b: Backend, t: nat, u: nat)
    requires Sound(b) && Holds(b, t) && Holds(b, u)
    ensures Tied(b, t, u) <==> t == u || (b.Postgres? && t / MICROSECOND == u / MICROSECOND)
  {
    if t < u { StoreOrderExact(b, t, u); }
    if u < t { StoreOrderExact(b, u, t); }
    if b.Sqlite? { LessIrreflexive(b.text(t)); }
  }

  /** Tied instants compare alike with every third one. */
  lemma TiedAlike(b: Backend, t: nat, u: nat, w: nat)
    requires Tied(b, t, u)
    ensures Below(b, t, w) <==> Below(b, u, w)
    ensures Below(b, w, t) <==> Below(b, w, u)
  {
    if b.Sqlite? { LessTotal(b.text(t), b.text(u)); }
  }

  /** What is asked of the text can be met. */
  lemma SoundExists()
    ensures exists b: Backend :: b.Sqlite? && Sound(b)
  {
    FaithfulStampExists();
    var stamp := (n: nat) => Padded(12, n);
    var b := Sqlite((t: nat) => InstantText(stamp, t));
    assert Prints(b.text, stamp);
  }
}
