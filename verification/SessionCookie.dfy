/**
The signed session cookie: user id, expiry and signature joined by '|'
(api/shared/session.go).  The signature is an arbitrary function of the payload.
*/
module SessionCookie {
  import opened Durations
  import opened Options
  import opened Text

  /** A keyed MAC in base64url: whatever it computes, its output never contains '|'. */
  ghost predicate NoBar(mac: string -> string) {
    forall p :: '|' !in mac(p)
  }

  function Payload(user: string, expiry: int): string {
    user + "|" + Decimal(expiry)
  }

  function Mint(mac: string -> string, user: string, expiry: int): string {
    Payload(user, expiry) + "|" + mac(Payload(user, expiry))
  }

  datatype Outcome = User(id: string) | BadFormat | SecretUnavailable | BadSignature | BadExpiry | Expired

  /** `mac` is None when the session secret cannot be resolved. */
  function Validate(mac: Option<string -> string>, value: string, nowUnix: int): Outcome {
    var parts := SplitN(value, '|', 3);
    if |parts| != 3 then BadFormat
    else if mac.None? then SecretUnavailable
    else if parts[2] != mac.value(parts[0] + "|" + parts[1]) then BadSignature
    else
      match ParseInt(parts[1])
      case None => BadExpiry
      case Some(expiry) => if nowUnix > expiry then Expired else User(parts[0])
  }

  lemma ThreeParts(a: string, b: string, c: string)
    requires '|' !in a && '|' !in b
    ensures SplitN(a + "|" + b + "|" + c, '|', 3) == [a, b, c]
  {
    var s := a + "|" + b + "|" + c;
    var rest := b + "|" + c;
    assert s == a + ['|'] + rest && rest == b + ['|'] + c;
    IndexOfFirst(a, '|', rest);
    IndexOfFirst(b, '|', c);
    assert s[..|a|] == a && s[|a| + 1..] == rest;
    assert rest[..|b|] == b && rest[|b| + 1..] == c;
  }

  /** The first part holds no separator, and the rest is split on its own. */
  lemma FirstPart(s: string, n: nat) returns (first: string, rest: string)
    requires n >= 2 && |SplitN(s, '|', n)| >= 2
    ensures SplitN(s, '|', n) == [first] + SplitN(rest, '|', n - 1)
    ensures '|' !in first && s == first + "|" + rest
  {
    assert IndexOf(s, '|') >= 0;
    var i: nat := IndexOf(s, '|');
    first, rest := s[..i], s[i + 1..];
    CutAt(s, i);
  }

  /** Splitting in three is undone by joining, and the first two parts hold no separator. */
  lemma PartsRejoin(s: string) returns (a: string, b: string, c: string)
    requires |SplitN(s, '|', 3)| == 3
    ensures SplitN(s, '|', 3) == [a, b, c]
    ensures s == a + "|" + b + "|" + c && '|' !in a && '|' !in b
  {
    var rest;
    a, rest := FirstPart(s, 3);
    b, c := FirstPart(rest, 2);
    Regroup(a, b, c);
  }

  lemma Regroup(a: string, b: string, c: string)
    ensures a + "|" + (b + "|" + c) == a + "|" + b + "|" + c
  {}

  /** A text with fewer than two bars. */
  predicate TooFewParts(value: string) {
    forall i, j :: 0 <= i < j < |value| ==> !(value[i] == '|' && value[j] == '|')
  }

  /** Fewer than two bars is a format error, whatever the state of the secret. */
  lemma FormatExact(mac: Option<string -> string>, value: string, nowUnix: int)
    ensures Validate(mac, value, nowUnix) == BadFormat <==> TooFewParts(value)
  {
    if |SplitN(value, '|', 3)| == 3 {
      var a, b, c := PartsRejoin(value);
      assert value[|a|] == '|' && value[|a| + 1 + |b|] == '|';
    } else {
      forall i, j | 0 <= i < j < |value| ensures !(value[i] == '|' && value[j] == '|') {
        if value[i] == '|' && value[j] == '|' { TwoBarsThreeParts(value, i, j); }
      }
    }
  }

  lemma TwoBarsThreeParts(value: string, i: nat, j: nat)
    requires i < j < |value| && value[i] == '|' && value[j] == '|'
    ensures |SplitN(value, '|', 3)| == 3
  {
    var first: nat := IndexOf(value, '|');
    assert forall x :: 0 <= x < first ==> value[x] == value[..first][x];
    var rest := value[first + 1..];
    assert rest[j - first - 1] == '|';
    SplitNStep(value, '|', 3);
    SplitNStep(rest, '|', 2);
  }

  /**
  Every other text is user, expiry and signature at its first two bars, and is judged in this
  order: the secret must be there, the signature must match, the expiry must be a number and must
  not have passed.
  */
  lemma ValidateExact(mac: Option<string -> string>, user: string, expiry: string, sig: string, nowUnix: int)
    requires '|' !in user && '|' !in expiry
    ensures var out := Validate(mac, user + "|" + expiry + "|" + sig, nowUnix);
            && (mac.None? ==> out == SecretUnavailable)
            && (mac.Some? && sig != mac.value(user + "|" + expiry) ==> out == BadSignature)
            && (mac.Some? && sig == mac.value(user + "|" + expiry) ==>
                  match ParseInt(expiry)
                  case None => out == BadExpiry
                  case Some(n) => out == if n < nowUnix then Expired else User(user))
  {
    ThreeParts(user, expiry, sig);
  }

  /**
  A cookie minted for a user id is validated as that id until it expires if the id has no '|',
  and is never validated at all if it has one: in no case as another user.
  */
  lemma MintedCookie(mac: string -> string, user: string, expiry: int, nowUnix: int)
    requires NoBar(mac) && IsInt64(expiry)
    ensures Validate(Some(mac), Mint(mac, user, expiry), nowUnix) ==
            if '|' in user then BadSignature else if nowUnix > expiry then Expired else User(user)
  {
    if '|' in user {
      MintedBarred(mac, user, expiry, nowUnix);
    } else {
      MintedPlain(mac, user, expiry, nowUnix);
    }
  }

  lemma MintedPlain(mac: string -> string, user: string, expiry: int, nowUnix: int)
    requires '|' !in user && IsInt64(expiry)
    ensures Validate(Some(mac), Mint(mac, user, expiry), nowUnix) == if nowUnix > expiry then Expired else User(user)
  {
    DecimalParses(expiry);
    ThreeParts(user, Decimal(expiry), mac(Payload(user, expiry)));
  }

  lemma MintedBarred(mac: string -> string, user: string, expiry: int, nowUnix: int)
    requires NoBar(mac) && '|' in user
    ensures Validate(Some(mac), Mint(mac, user, expiry), nowUnix) == BadSignature
  {
    var tail := Decimal(expiry) + "|" + mac(Payload(user, expiry));
    assert Mint(mac, user, expiry) == user + "|" + tail;
    assert tail[|Decimal(expiry)|] == '|';
    BarredUserSplits(user, tail);
    BarredSignature(mac, Mint(mac, user, expiry), nowUnix);
  }

  /** No signature has a bar, so a third part with one never matches. */
  lemma BarredSignature(mac: string -> string, value: string, nowUnix: int)
    requires NoBar(mac) && |SplitN(value, '|', 3)| == 3 && '|' in SplitN(value, '|', 3)[2]
    ensures Validate(Some(mac), value, nowUnix) == BadSignature
  {
    var parts := SplitN(value, '|', 3);
    assert '|' !in mac(parts[0] + "|" + parts[1]);
  }

  /** With a '|' in the user id, the third part still contains everything after the id. */
  lemma BarredUserSplits(user: string, tail: string)
    requires '|' in user && '|' in tail
    ensures var parts := SplitN(user + "|" + tail, '|', 3); |parts| == 3 && '|' in parts[2]
  {
    var i := IndexOf(user, '|');
    var a, b := user[..i], user[i + 1..];
    assert user == a + "|" + b;
    var j := IndexOf(b, '|');
    if j < 0 {
      ThreeParts(a, b, tail);
    } else {
      TwoBars(a, b, j, tail);
    }
  }

  lemma TwoBars(a: string, b: string, j: nat, tail: string)
    requires '|' !in a && j < |b| && b[j] == '|' && '|' !in b[..j]
    ensures var parts := SplitN(a + "|" + b + "|" + tail, '|', 3); |parts| == 3 && '|' in parts[2]
  {
    var c, d := b[..j], b[j + 1..];
    assert b == c + "|" + d;
    assert a + "|" + b + "|" + tail == a + "|" + c + "|" + (d + "|" + tail);
    ThreeParts(a, c, d + "|" + tail);
    assert (d + "|" + tail)[|d|] == '|';
  }

  /** Two payloads agree only when the user and the expiry do, once the ids hold no '|'. */
  lemma PayloadInjective(user: string, expiry: int, u: string, es: string)
    requires '|' !in u && '|' !in es && IsInt64(expiry)
    requires Payload(user, expiry) == u + "|" + es
    ensures user == u && Decimal(expiry) == es
  {
    DecimalParses(expiry);
    var d := Decimal(expiry);
    SplitConcat(user, '|', d);
    SplitStep(u, '|', es);
    assert [u] + Split(es, '|') == [u, es];
    assert Split(user, '|') + [d] == [u, es];
    assert (Split(user, '|') + [d])[0] == u && (Split(user, '|') + [d])[1] == es;
    assert |Split(user, '|')| == 1 && Split(user, '|')[0] == user;
  }

  /**
  With an unforgeable MAC, every validated cookie names a user for whom a cookie with exactly
  that expiry was minted, and the expiry has not passed.
  */
  lemma ValidatedWasMinted(mac: string -> string, value: string, nowUnix: int, minted: set<(string, int)>)
    requires forall m :: m in minted ==> IsInt64(m.1)
    requires forall p :: value == p + "|" + mac(p) ==> exists m :: m in minted && p == Payload(m.0, m.1)
    requires Validate(Some(mac), value, nowUnix).User?
    ensures exists m :: m in minted && m.0 == Validate(Some(mac), value, nowUnix).id && nowUnix <= m.1
  {
    var user, expiry, sig := PartsRejoin(value);
    var p := user + "|" + expiry;
    assert value == p + "|" + mac(p);
    var m :| m in minted && p == Payload(m.0, m.1);
    PayloadInjective(m.0, m.1, user, expiry);
    DecimalParses(m.1);
  }

  // ---------------------------------------------------------------------------
  // Lifetimes

  /** Max-Age in whole seconds, rounded up; zero for a lifetime that is not positive. */
  function CookieMaxAgeSeconds(d: int): (m: int)
    ensures d <= 0 ==> m == 0
    ensures d > 0 ==> (m - 1) * 1_000_000_000 < d <= m * 1_000_000_000
  {
    if d <= 0 then 0
    else if d % SECOND != 0 then d / SECOND + 1 else d / SECOND
  }

  /** The whole-second clock reading at a time in nanoseconds. */
  function Unix(t: int): int {
    t / SECOND
  }

  /** The server's check on a cookie minted at `t` for a lifetime `d`. */
  predicate ServerHonours(t: int, d: int, now: int) {
    Unix(now) <= Unix(t + d)
  }

  /** The browser's: Max-Age counts from the moment the cookie arrives. */
  predicate BrowserKeeps(t: int, d: int, now: int) {
    now < t + CookieMaxAgeSeconds(d) * SECOND
  }

  /** Both sides honour the whole lifetime and neither honours it from a second beyond it on. */
  lemma LifetimesAgree(t: int, d: int, now: int)
    requires d > 0
    ensures now < t + d ==> ServerHonours(t, d, now) && BrowserKeeps(t, d, now)
    ensures now >= t + d + SECOND ==> !ServerHonours(t, d, now) && !BrowserKeeps(t, d, now)
    ensures CookieMaxAgeSeconds(d) > 0
  {}
}
