# Authplane: verified models of its stateful core

Authplane is an OAuth authorization server. This project models its lockout tracker, rate limiters,
consent revocation, replay protection, session cookie and the stores and parsers beside them, and
proves what they guarantee over every input and every run.

* **Auth-failure lockout** (`Lockout`, `LockoutRuns`, `LockoutSpans`, `LockoutAnswers`,
  `LockoutReference`, `LockoutCost`, `LockoutTracker`). A bounded map of failure counters with anchored windows, lock deadlines,
  sampled eviction and a sweep. `Lockout` is the transition system, in which Go's random map
  iteration is an arbitrary choice of sample; `LockoutTracker.AuthLockout` is the mutable tracker,
  whose ghost history is always a legal run, so every theorem about runs holds of it.
* **Consent revocation** (`Issuances`, `ExchangeRace`). The cascade that revokes a grant's tokens
  and everything exchanged from them, and the protocol between token exchanges and revocations that
  run at the same time.
* **Rate limiters** (`RateLimit`), over real-valued token buckets.
* **DPoP proof replay** at the resource server (`ReplayGuard`; RFC 9449, sections 4.3 and 11.1), over
  the proof stores of both database adapters.
* **Session cookie** format and lifetimes (`SessionCookie`).
* **Text and lists**: the `--scope-map` flag (`ScopeMapFlag`), post-login redirects against the URL
  parser of section 4.4 of the WHATWG URL Standard (`Redirect`), the issuance listing
  (`IssuanceListing`).
* **Storage**: the versioned broker grant (`BrokerGrants`), the text order of SQLite timestamps
  (`SqliteTime`), and how each store compares two instants (`StoreTime`): exactly, by whole
  microseconds on Postgres, by text on SQLite.

The mutable stores and limiters carry a ghost history like the tracker's, and their methods say what
they answer in terms of that run. `Text`, `Durations` and `Options` hold what the modules share. `dafny verify dfyconfig.toml` checks everything.

## Where the code does not do what is said of it

Each of these is stated exactly, by a lemma that names the condition under which the code does meet
the property and by one that exhibits the failure.

* The failure threshold is not `auth_fail_max` in a window: the window is anchored at the first
  failure, so a key can gather up to 2 x max - 3 failures inside one window length without a lock,
  and 2 x max - 2 is where a lock is certain (`LockForced`, `LockBoundTight`). Which spans lock is
  decided by the failures still counting when they begin (`LockExact`).
* The recheck after an exchange's insert closes the race with a consent revocation only for tokens
  that a consent gate watches or whose subject token the cascade has reached. An authorization-code
  or refresh mint (internal/services/token.go:360, 644), a self-exchange, or a fronted exchange that
  falls under the legacy client match writes a root that nothing rechecks
  (`NoTokenOutlivesConsent`, `UngatedRootEscapes`, `RevocationMissesUngatedRoot`).
* Keeping a DPoP proof id for two lifetimes is not enough once time passes between the freshness
  check and the insert, with a second clock reading between them; and on SQLite it is never enough, because
  the purge compares text and takes ids that have not expired. The retention that is enough, store
  by store, is exact (`RetentionExact`, `ShippedSafeIffAtomic`, `ShippedOnPostgres`,
  `ShippedUnsafeOnSqlite`, `ExtraSecondSuffices`).
* SQLite compares timestamps as RFC3339Nano text, which drops trailing zeros of the fraction, so
  text order and time order differ inside a second (`TextOrderExact`, `EarlyPurgeExact`). A listing
  with a limit can therefore cut off a newer row and keep an older one, and a window can miss a row
  issued inside its first second (`TruncationKeepsNewest`, `BlurredPairInverts`, `WindowExact`).
* The admin limiter forgets every bucket on each tick, and each tick hands out another burst
  (`AdminBoundReached`). It goes unnoticed exactly in the runs whose ticks find only full buckets
  (`AdminUnobservableIff`).

## Model

| member | source | states |
|---|---|---|
| Lockout.KeyIdentifiesPair | api/shared/authlockout.go:204-210 | Two (identity, address) pairs share a key if and only if the addresses are equal and the normalised identities agree on their first 254 bytes, NUL bytes in identities included, for addresses without NUL |
| Lockout.EvictionFrame | api/shared/authlockout.go:390-418 | Eviction removes at most one entry, never a locked one, and alters no other |
| Lockout.FailureFrame | api/shared/authlockout.go:226-279 | A failure of one key never makes another key locked or unlocked, now or at any later time, and changes no other entry except by dropping an unlocked one |
| Lockout.FailureKeepsCap | api/shared/authlockout.go:237-255 | No failure takes the map over its cap |
| Lockout.RefusedIffSampleLocked | api/shared/authlockout.go:237-255 | A newcomer is refused if and only if the map is at its cap and all min(64, size) entries looked at are locked; never while fewer than min(64, size) entries are locked, whatever the iteration order |
| LockoutRuns.StepKeepsInv | api/shared/authlockout.go:226-315 | Every operation keeps the map within its cap, every counter below the threshold, and every running counter younger than the last lock |
| LockoutRuns.ReachableTables | api/shared/authlockout.go:226-449 | That invariant holds in every state of every run |
| LockoutRuns.LockForced | api/shared/authlockout.go:226-279 | 2 x max - 2 failures of a key within one window have it locked at some moment of that span, unless it is reset, evicted or refused meanwhile, whatever other operations interleave |
| LockoutRuns.LockBoundTight | api/shared/authlockout.go:257-278 | For every configuration with max at least 2 some run holds 2 x max - 3 failures in such a span and is never locked in it |
| LockoutSpans.TallyStep | api/shared/authlockout.go:226-279 | One step keeps the entry in tally with the failures of the span, and locks the key exactly when they are enough |
| LockoutSpans.LockExact | api/shared/authlockout.go:226-279 | In a span no longer than the window a tracked key is locked if and only if it was locked at the start, or max - c failures fall before the window of the c still counting runs out, or max after it, or max with none counting, sweeps included |
| LockoutRuns.StepKeepsLock | api/shared/authlockout.go:226-315 | No operation but a Reset of the key alters the entry of a locked key |
| LockoutRuns.LockPersists | api/shared/authlockout.go:226-315 | From the engagement to its deadline every query reports that deadline and every further failure is answered with it without moving it, through floods, evictions and sweeps, unless the key is reset |
| LockoutRuns.EngagementsApart | api/shared/authlockout.go:257-278 | Two engagements of a key with no Reset between them are at least one lockout apart |
| LockoutRuns.EngagementEarned | api/shared/authlockout.go:257-278 | An engagement is the max-th failure of its key counted from a failure at most one window earlier, with neither lock nor Reset of the key in between |
| LockoutAnswers.LockedIffStands | api/shared/authlockout.go:226-315 | The map holds a lock for a key exactly when the run has an engagement of it less than one lockout ago and no Reset since |
| LockoutAnswers.QueryExact | api/shared/authlockout.go:284-300 | A query says locked if and only if the key engaged a lock less than one lockout ago and was not reset since, and then names the end of that lock; otherwise it answers zero and false |
| LockoutAnswers.FailureExact | api/shared/authlockout.go:226-279 | A failure under a standing lock answers with its deadline and changes nothing; any other engages a lock to end one lockout from now or answers zero and false |
| LockoutAnswers.DisabledIsSilent | api/shared/authlockout.go:226-300 | With a threshold that is not positive every answer is zero and false and the map stays empty |
| LockoutAnswers.SweepForgets | api/shared/authlockout.go:422-434 | After a sweep only keys are tracked that failed within the window or hold a lock |
| LockoutReference.SimStep | api/shared/authlockout.go:226-449 | One operation of the swept tracker and of the never-swept one give the same answer and keep the two indistinguishable, even where the sweep forgot an entry |
| LockoutReference.SweepUnobservable | api/shared/authlockout.go:420-449 | In every run that records failures for at most cap distinct keys, each operation answers exactly what an unbounded tracker that never sweeps answers |
| LockoutCost.LockedKeysCost | api/shared/authlockout.go:380-389 | Holding a set of keys locked took max recorded failures for each of them within the last lockout plus window |
| LockoutCost.RefusalCost | api/shared/authlockout.go:380-389 | Getting one newcomer refused took max recorded failures for each of min(64, cap) other keys within the last lockout plus window |
| LockoutTracker.AuthLockout.constructor | api/shared/authlockout.go:139-184 | Non-positive durations and cap fall back to the defaults; only the threshold can disable the control |
| LockoutTracker.AuthLockout.EvictOne | api/shared/authlockout.go:390-418 | Looks at min(65, size) entries and no more, judges at most 64, and drops an unlocked one of least failure count among those judged, or nothing when all are locked |
| LockoutTracker.AuthLockout.Track | api/shared/authlockout.go:237-255 | Yields an entry for the key, by eviction at the cap, or refuses and leaves a legal step |
| LockoutTracker.AuthLockout.Count | api/shared/authlockout.go:257-278 | Counts on the anchored window, reports a running lock unchanged, and engages at the threshold |
| LockoutTracker.AuthLockout.RecordFailure | api/shared/authlockout.go:226-279 | Extends the run by exactly one failure step of the pair's key; answers zero and false, or a new lock to end one lockout from now, or, under a standing lock, its deadline |
| LockoutTracker.AuthLockout.LockedUntil | api/shared/authlockout.go:284-300 | Extends the run by one query step; says locked if and only if a lock of the pair's key stands in that run, and leaves the map alone |
| LockoutTracker.AuthLockout.Reset | api/shared/authlockout.go:311-315 | Extends the run by one reset step |
| LockoutTracker.AuthLockout.Sweep | api/shared/authlockout.go:422-434 | The deleting loop leaves exactly the entries that are locked or still count, as one sweep step |
| Issuances.LineageLeast | internal/adapters/sqlite/issuance_store.go:162-172 | The tokens reached by chains of parent links from the roots are the least set that holds the roots and is closed under the links |
| Issuances.FamilyIgnoresMarks | testdata/suite_issuance_store.go:208-552 | Revocation marks never change what a cascade reaches: it walks through revoked rows |
| Issuances.CascadeIdempotent | testdata/suite_issuance_store.go:208-552 | After a cascade a second one finds nothing live, so it counts 0, and changes nothing |
| Issuances.CascadesCommute | internal/adapters/sqlite/issuance_store.go:143-190 | Cascades for two grants leave the same table in either order |
| Issuances.FamilyAfterInsert | internal/adapters/sqlite/issuance_store.go:162-172 | A new token joins a family if and only if it is a root of it or its parent is in the lineage, and moves no other row in or out |
| Issuances.FamilyOnColumns | internal/adapters/sqlite/issuance_store.go:162-172 | A row is in the family if and only if it is a Mint row with a token that was minted under the grant, by its consent client or with none recorded by its acting client, or whose parent's row is in the family |
| Issuances.FamilyLeast | internal/adapters/sqlite/issuance_store.go:162-172 | And the family is the least such set, so a cycle of parent links reaches nothing by itself |
| Issuances.ParentlessInFamily | testdata/suite_issuance_store.go:388-415 | A row without a parent is in the family exactly when it is a Mint row with a token, of the grant's user and resource, and its consent client, or failing one its acting client, is the grant's; a Broker row never is |
| Issuances.CascadeOnColumns | internal/adapters/sqlite/issuance_store.go:173-176 | A cascade marks exactly the reached rows that were live, changes no other column and no other row |
| Issuances.Reach | internal/adapters/sqlite/issuance_store.go:162-172 | The recursive query ends on every graph, cycles included, with the least closed set over the roots |
| Issuances.Lineage | internal/adapters/sqlite/issuance_store.go:162-172 | Returns exactly the tokens of the lineage as defined by chains |
| Issuances.UpdateLineage | internal/adapters/sqlite/issuance_store.go:173-176 | Marks exactly the live Mint rows of the lineage, leaves every other row, and counts them |
| Issuances.IssuanceStore.Insert | internal/adapters/sqlite/issuance_store.go:35-60 | Refuses a duplicate id or token id without a change; keeps token ids unique |
| Issuances.IssuanceStore.Revoke | internal/adapters/sqlite/issuance_store.go:119-138 | Marks a live row, and never moves an existing mark |
| Issuances.IssuanceStore.RevokeFamily | internal/adapters/sqlite/issuance_store.go:143-190 | Marks exactly the live rows that the columns put in the grant's family, changes nothing else, keeps earlier marks, and returns the number of rows whose mark changed |
| ExchangeRace.NextKeepsInv | internal/services/token_exchange.go:1555-1573 | Every step of every interleaving keeps rows, exchanges and delivered tokens consistent: an exchange's row is the one it wrote, and nothing is delivered without a row |
| ExchangeRace.CascadeQuenches | internal/services/grant_admin.go:148-194 | Right after a cascade under a withdrawn grant, whatever exchange is in flight, nothing of the family is both live and delivered |
| ExchangeRace.NextKeepsQuenched | internal/services/token_exchange.go:602-665 | Every step but a new consent or an ungated root keeps it so: an exchange that slipped past the cascade is bound to be refused by its recheck |
| ExchangeRace.NoTokenOutlivesConsent | internal/services/token_exchange.go:594-665 | Once a revocation has withdrawn the grant and run its cascade, no delivered token of the family is live, for every interleaving of any number of exchanges and revocations, until the user consents again or an ungated root is written |
| ExchangeRace.UngatedRootEscapes | internal/services/token_exchange.go:1555-1573 | From every reachable state in which an ungated root is written, the exchange can finish and its caller holds a live token of the family |
| ExchangeRace.RevocationMissesUngatedRoot | internal/services/token_exchange.go:1536-1573 | For every grant and every ungated exchange under it, a run exists in which the exchange outlives a complete revocation |
| ExchangeRace.RecheckExact | internal/services/token_exchange.go:602-665 | The subject recheck refuses exactly on a revoked subject row; the consent recheck delivers exactly if the exchange is ungated or its grant stands; a failed read refuses |
| ExchangeRace.RefusalRevokesRow | internal/services/token_exchange.go:646-672 | A refused exchange takes its own row out, delivers nothing and touches no other row |
| ExchangeRace.EntitledDelivers | internal/services/token_exchange.go:1270-1573 | In every reachable state an exchange whose grant stands and whose subject is not revoked can run to its end, and its caller then holds a live token |
| ExchangeRace.ConsentedDelivers | internal/services/token_exchange.go:1270-1573 | In particular right after the user consents |
| ExchangeRace.DeliveredWasAuthorized | internal/services/token_exchange.go:1270-1573 | In every run a delivered token found its subject live and its grant given before its row was written and again after |
| RateLimit.SameAfter | api/shared/ratelimit.go:41-90 | One request or tick keeps a limiter that drops full buckets and one that drops none in agreement at all later times |
| RateLimit.CleanupUnobservable | api/shared/ratelimit.go:41-90 | For every ordered sequence of requests and ticks the public limiter admits exactly what a limiter that never deletes admits |
| RateLimit.StepBudget | api/shared/ratelimit.go:68-90 | Admissions and remaining tokens are paid for by earlier tokens, refill and, for the admin limiter, ticks |
| RateLimit.PublicThroughput | api/shared/ratelimit.go:68-90 | In any window of any run at most burst + rate x T requests per address are admitted |
| RateLimit.AdminThroughput | api/admin/server.go:140-174 | With k ticks in the window at most (k + 1) x burst + rate x T are admitted |
| RateLimit.AdmittedExact | api/shared/ratelimit.go:68-90 | A request is admitted if and only if its address has a whole token left, counted from the requests alone: a burst at first, one less for each admission, rate for each second, never above the burst, and a burst again at each admin tick |
| RateLimit.NextAdmittedIff | api/shared/ratelimit.go:68-90 | After an admission that found `left` tokens the next request dt seconds later is admitted if and only if left - 1 + rate x dt is at least 1 and so is the burst |
| RateLimit.IdleBurstAdmitted | api/shared/ratelimit.go:68-90 | An address idle for burst / rate seconds has its whole burst admitted at once |
| RateLimit.AdminBoundReached | api/admin/server.go:140-174 | The admin bound is reached for every k: around k ticks at one instant the admin limiter admits all of k + 1 bursts, where the public limiter admits at most one |
| RateLimit.TickHarmlessIff | api/admin/server.go:140-162 | A tick of the admin limiter changes nothing that can be seen at any later time if and only if every bucket is full at it |
| RateLimit.AdminAgrees | api/admin/server.go:140-191 | Until a tick drops a bucket that is not full, the admin limiter admits exactly what one that never deletes admits |
| RateLimit.TickExposed | api/admin/server.go:140-191 | After the first tick that drops a bucket with fewer tokens than its burst, floor(tokens) + 1 requests at that instant end in one that the admin limiter admits and a limiter that never deletes denies |
| RateLimit.AdminUnobservableIff | api/admin/server.go:140-191 | No requests tried at any point of a run tell the admin limiter from one that never deletes if and only if every tick of the run finds only full buckets |
| RateLimit.TakeToken | api/shared/ratelimit.go:68-90 | Admits exactly if the bucket, grown by rate for each second since its last use and capped at the burst, holds a token, or if the address is new and the burst is not zero; touches no other bucket |
| RateLimit.RateLimiter.Allow | api/shared/ratelimit.go:68-90 | Extends the run by one request and admits it exactly if the run leaves the address a whole token, which is also what a limiter that never forgets answers |
| RateLimit.BelowFull | api/shared/ratelimit.go:41-66 | The deleting loop leaves exactly the buckets below full burst |
| RateLimit.RateLimiter.Cleanup | api/shared/ratelimit.go:41-66 | Extends the run by one tick that drops the full buckets |
| RateLimit.AdminRateLimiter.Allow | api/admin/server.go:164-191 | Extends the run by one request and admits it exactly if the run since the last tick leaves the address a whole token; that is what a limiter that never forgets answers while every tick found only full buckets |
| RateLimit.AdminRateLimiter.Cleanup | api/admin/server.go:140-162 | The deleting loop leaves nothing, as one tick of the run |
| ReplayGuard.Retained | api/shared/jwt_middleware.go:476-481 | In every run a consumed id keeps its own expiry until a purge finds that expiry below its clock, whatever other users of the store do |
| ReplayGuard.ReplayOverlaps | api/shared/jwt_middleware.go:411-481 | A proof accepted twice was dropped by a purge inside its own freshness window, on any store |
| ReplayGuard.OverlapReplays | api/shared/jwt_middleware.go:411-481 | And wherever a purge can fall so, a run accepts that proof twice |
| ReplayGuard.RetentionEnough | api/shared/jwt_middleware.go:411-481 | With the retention its store needs, no run accepts one proof twice, with other users of the store and purges interleaved, on Postgres and on SQLite |
| ReplayGuard.RetentionNeeded | api/shared/jwt_middleware.go:411-481 | With any shorter retention, every sound proof whose window lies on the clock is accepted twice by some run |
| ReplayGuard.RetentionExact | testdata/suite_dpop_nonce.go:117-145 | No run accepts a proof twice if and only if retention minus lifetime is at least lifetime plus the gap from check to insert: exactly, in whole microseconds on Postgres, and strictly in whole seconds on SQLite |
| ReplayGuard.ShippedSafeIffAtomic | api/shared/jwt_middleware.go:476-481 | On a store that compares exactly, two lifetimes are safe if and only if check and insert share one instant |
| ReplayGuard.ShippedOnPostgres | internal/adapters/postgres/dpop_nonce.go:112-142 | On Postgres two lifetimes are safe if and only if the gap is too short to carry the end of the window into the next microsecond |
| ReplayGuard.ShippedUnsafeOnSqlite | internal/adapters/sqlite/dpop_nonce.go:116-148 | On SQLite two lifetimes are safe for no lifetime and no gap |
| ReplayGuard.ExtraSecondSuffices | internal/adapters/sqlite/dpop_nonce.go:116-148 | Two lifetimes, the gap and one second are safe on every store |
| ReplayGuard.StoredWasSpent | api/shared/jwt_middleware.go:394-484 | In every run each stored id comes from a request that passed every check, with the token's own key if it is bound and at most 255 characters, or from another endpoint, and carries the expiry it was given |
| ReplayGuard.SpendsExact | api/shared/jwt_middleware.go:394-484 | A request gets through if and only if it comes under the DPoP scheme with a sound proof, of a jti of 1 to 255 characters not used before, issued within the lifetime of the check on either side, and by the token's own key if the token is bound |
| ReplayGuard.DPoPGuard.constructor | api/shared/jwt_middleware.go:165-173 | A missing or non-positive lifetime is the 60-second default, so the lifetime is always positive |
| ReplayGuard.DPoPGuard.Validate | api/shared/jwt_middleware.go:394-484 | Passes exactly such requests, records their jti for two lifetimes and otherwise leaves the store alone; with enough retention it never passes a proof that passed before; the wrong scheme is the only invalid_token |
| ReplayGuard.DPoPGuard.Serve | api/shared/jwt_middleware.go:344-377 | A proof is asked for exactly when the token is bound or the scheme is DPoP; a plain bearer token passes and leaves the store alone; a bound token under another scheme is an invalid_token |
| ReplayGuard.HeldUntilExpiry | api/shared/jwt_middleware.go:476-481 | In every run an id that was spent is held until its retention may be over: to the microsecond on Postgres, to the second on SQLite |
| ReplayGuard.DPoPGuard.PurgeExpired | internal/adapters/postgres/dpop_nonce.go:112-142 | Extends the run by one purge; every id spent within the retention is still held after it, and none is lost that the store did not find expired |
| SessionCookie.MintedCookie | api/shared/session.go:350-379 | A cookie minted for a user id validates as that id until expiry when the id has no bar, and always fails the signature check when it has one; never as another user |
| SessionCookie.PayloadInjective | api/shared/session.go:479-520 | A signed payload determines its user and its expiry text among splits without a bar |
| SessionCookie.ValidatedWasMinted | api/shared/session.go:479-520 | With an unforgeable signature every accepted cookie names a user for whom one was minted with an expiry that has not passed |
| SessionCookie.FormatExact | api/shared/session.go:479-483 | A value is malformed if and only if it has fewer than two bars, whatever the state of the secret |
| SessionCookie.ValidateExact | api/shared/session.go:479-510 | Every other value is judged on user, expiry and signature at its first two bars, in the order secret, signature, number, time, with the outcome for each |
| SessionCookie.LifetimesAgree | api/shared/session.go:76-85 | Server cut-off and browser Max-Age both fall in the second after mint time plus lifetime |
| ScopeMapFlag.AppendTargets | cmd/authserver/admin_fronting.go:280-286 | The inner loop appends the trimmed targets to the key's list and fails if and only if one is blank |
| ScopeMapFlag.ParseScopeMapFlag | cmd/authserver/admin_fronting.go:258-292 | The two loops compute the left-to-right meaning of the flag, on every text, rejections included |
| ScopeMapFlag.NoColonRejected | cmd/authserver/admin_fronting.go:268-271 | An entry that is not blank and has no colon is rejected |
| ScopeMapFlag.ColonEntry | cmd/authserver/admin_fronting.go:264-287 | An entry with a colon is rejected if either side or one target is blank, and otherwise is the trimmed key with the trimmed targets in order, wherever spaces stand |
| ScopeMapFlag.SingleEntry | cmd/authserver/admin_fronting.go:258-292 | A text without a comma is accepted exactly if its one entry is a pair, and means that pair |
| ScopeMapFlag.EntryRoundTrip | cmd/authserver/admin_fronting.go:246-257 | An entry written in the grammar reads back as its key and targets |
| ScopeMapFlag.ParseRender | cmd/authserver/admin_fronting.go:246-292 | Any well-formed scope map, written with its keys in any order, parses back to itself |
| ScopeMapFlag.ParseConcat | cmd/authserver/admin_fronting.go:258-292 | Joining two texts by a comma concatenates their target lists key by key, and is accepted exactly when each is accepted or vacant and not both vacant |
| Redirect.SafeRedirect | api/shared/redirect.go:74-103 | Returns the path when every layer accepts it and the fallback otherwise, for every verdict of the URL library |
| Redirect.AcceptsExact | api/shared/redirect.go:74-103 | Accepted are exactly the paths the URL library accepts that begin with one slash and no second, have no control character, and no backslash before the first '?' or '#' |
| Redirect.RootedResolves | api/shared/redirect.go:74-103 | A browser keeps a rooted path without controls on the origin if and only if its second character is neither slash nor backslash |
| Redirect.AcceptedStaysOnOrigin | api/shared/redirect.go:74-103 | Every accepted value resolves to the base's own scheme and host in the WHATWG parser |
| Redirect.EachLayerNeeded | api/shared/redirect.go:74-103 | Without a layer the input chooses the host: after a double slash, slash backslash or slash tab slash the browser goes to exactly the host that follows, whatever host that is |
| IssuanceListing.AnyIndexAnswers | api/admin/issuances.go:101-144 | Whichever dimensions an index serves, filtering its answer by the rest answers the whole filter, with multiplicities and in the store's own order |
| IssuanceListing.ResidualAnswers | api/admin/issuances.go:101-144 | In particular for the user, client, resource order of preference |
| IssuanceListing.ListedIff | api/admin/issuances.go:169-180 | A row is listed if and only if the table has it, the store finds it in the window, and it agrees with every filter that is set |
| IssuanceListing.ListingDetermined | cmd/authserver/admin_issuance.go:83-112 | Every answer begins with the same `limit` rows, so every index and both front ends agree, if and only if the store can tell each of those rows in time from every different row after it |
| IssuanceListing.FilterInPlace | cmd/authserver/admin_issuance.go:258-266 | Compaction in the same array leaves exactly the matching rows of the original in order at the front and disturbs nothing behind them |
| IssuanceListing.List | cmd/authserver/admin_issuance.go:83-112 | The result is the first `limit` rows of an answer to the whole filter |
| IssuanceListing.TruncationKeepsNewest | api/admin/issuances.go:148-156 | A row that the limit cuts off is newer than a kept one only inside one microsecond on Postgres, and on SQLite only inside one second with the kept fraction a proper prefix of the other |
| IssuanceListing.BlurredPairInverts | internal/adapters/sqlite/issuance_store.go:200-204 | Two matching rows come back older first in some answer if and only if they are such a pair |
| IssuanceListing.WindowExact | internal/adapters/sqlite/issuance_store.go:200-204 | A row of the window is missed only on SQLite, when the text of `since` begins its own; an older row is let in exactly where the store blurs the two |
| BrokerGrants.IdsUnique | testdata/suite_broker_grant_store.go:82-262 | In every run no two pairs share a row id |
| BrokerGrants.RowHistory | testdata/suite_broker_grant_store.go:376-557 | A pair's row never goes away and never changes its id, through revocation and re-connect, and its version grows by the winning updates and conflicting upserts |
| BrokerGrants.VersionCountsBumps | testdata/suite_broker_grant_store.go:376-557 | The version is one plus the number of winning updates and conflicting upserts so far |
| BrokerGrants.OneWriterWins | testdata/suite_broker_grant_store.go:82-262 | Of all writers holding one version of a row at most one succeeds, whatever runs between them |
| BrokerGrants.ActiveIff | testdata/suite_broker_grant_store.go:376-557 | A pair's grant is in force if and only if it has connected and was not revoked since, through every interleaving of creates, upserts, updates and revocations |
| BrokerGrants.CredentialIsLastWritten | testdata/suite_broker_grant_store.go:82-262 | A row's credential is that of the last winning write |
| BrokerGrants.BrokerGrantStore.Get | internal/adapters/sqlite/broker_grant_store.go:38-64 | Finds a grant exactly while the pair is connected and not revoked since, at version one plus its winning updates and re-connects, and with the credential of the last winning write |
| BrokerGrants.BrokerGrantStore.CreateGrant | internal/adapters/sqlite/broker_grant_store.go:94-116 | Succeeds if and only if neither the pair, revoked rows included, nor the id is taken; then the pair has a row at version 1, and otherwise nothing changes |
| BrokerGrants.BrokerGrantStore.UpsertGrant | internal/adapters/sqlite/broker_grant_store.go:125-167 | Inserts at version 1, or revives the pair's own row under its old id at the next version |
| BrokerGrants.WriteMatching | internal/adapters/sqlite/broker_grant_store.go:173-202 | Writes only where id and version both match, and reports a conflict exactly when nothing matches |
| BrokerGrants.BrokerGrantStore.UpdateWithVersion | internal/adapters/sqlite/broker_grant_store.go:173-202 | Extends the run by one versioned update, and fails exactly on a stale version or unknown id |
| BrokerGrants.BrokerGrantStore.RevokeGrant | internal/adapters/sqlite/broker_grant_store.go:205-224 | Afterwards no grant with that id is in force; at most one row is touched, and it keeps its slot, id, credential and version |
| SqliteTime.TextOrderExact | internal/adapters/sqlite/db.go:404-406 | An earlier instant sorts first as text if and only if it is not the case that both share a second and its fraction is a proper prefix of the later one |
| SqliteTime.EarlyPurgeExact | internal/adapters/sqlite/dpop_nonce.go:116-148 | The text comparison purges an unexpired row if and only if both instants share a second and the fraction of now is a proper prefix of the fraction of the expiry |
| SqliteTime.TextOrderWithinSecond | internal/adapters/sqlite/db.go:404-406 | Text order never contradicts the order of whole seconds |
| SqliteTime.FaithfulStampExists | internal/adapters/sqlite/db.go:404-406 | What is asked of the text of whole seconds can be met up to the year 9999 |
| SqliteTime.WholeSecondSortsLast | internal/adapters/sqlite/db.go:404-406 | A whole second sorts after every later instant of that second |
| StoreTime.StoreOrderExact | internal/adapters/sqlite/db.go:404-406 | Each store orders two instants by time except those it blurs, and only text ever turns two round |
| StoreTime.StoreOrderWithinSecond | internal/adapters/sqlite/db.go:404-406 | No store contradicts the order of whole seconds |
| StoreTime.SoundExists | internal/adapters/sqlite/db.go:404-406 | What is asked of the SQLite text can be met |
| StoreTime.TiedExact | migrations/postgres/001_initial.up.sql:239-242 | Two instants compare equal only when they are, or on Postgres within one microsecond |
| StoreTime.TiedAlike | internal/adapters/sqlite/db.go:404-406 | Instants a store cannot tell apart compare alike with every third one |

## Left out

- Lockout: each operation is one atomic step under a non-decreasing clock; RecordFailure reads the clock before it takes the mutex, and a reordering of such readings is not modelled. Duration saturation at int64 is not modelled.
- Lockout: lower-casing and trimming of identities is an arbitrary function; capacity warnings and their latch decide nothing and are absent.
- RateLimit: buckets are real-valued, so floating-point rounding inside the limiter library is absent, and fetching a limiter and using it is one step. Clock readings are not negative in the throughput bounds.
- Issuances: PurgeExpired and the listing queries of the issuance store, and the columns that the cascade does not read, are absent.
- ExchangeRace: the denylist and machine-token checks on a subject token, scopes, act chains and expiry are absent, and no issuance row is purged during a run. An error while revoking one's own row is the exchange that never takes that step.
- ReplayGuard: the middleware without a proof store accepts without recording and is absent; verification of the access token and its audience come before the modelled branch; signature, key, method, URL and token-hash checks of the proof are one verdict; token-endpoint users of the store are arbitrary other writers; the length limit counts characters. One clock serves the server and the database.
- StoreTime: Postgres instants are cut to the microsecond, as its driver and its NOW() give them; the column's range is not modelled.
- SessionCookie: cookie attributes, the policy lookup and the HMAC itself; the signature is an arbitrary function whose output has no bar.
- ScopeMapFlag: the different error texts are one rejection; the map printer of the list command is absent.
- Redirect: works on characters where the code scans bytes; the URL library's verdict is arbitrary; the Location rewriting of the HTTP library afterwards is absent.
- IssuanceListing: the token-id point query, parsing of `since` and `limit`, the rejection of a request with no filter at all, and the order of rows with equal timestamps. The HTTP and command-line bodies are the same code twice and have one model.
- BrokerGrants: scopes, the encryption backend, timestamps other than the revocation mark, foreign keys, and creating a row that is already revoked.
- SqliteTime: the calendar text of whole seconds is any fixed-width, order-preserving text up to the year 9999.
- The token and authorization endpoints beyond the rows they write, key management, brokering to third parties, configuration, HTTP handlers and command-line plumbing are not modelled.
