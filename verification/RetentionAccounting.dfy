/** What the counts of a sweep account for, and what a sweep may never remove. */
module RetentionAccounting {
  import opened Text
  import opened Retention
  import opened RetentionSweep

  /** The horizon of one whole sweep. */
  function SweepHorizon(config: Config, now: int): Horizon {
    map t: Table | true :: Cutoff(config, t, now)
  }

  lemma SweepHorizonIs(config: Config, now: int)
    ensures HorizonOf(SweepLog(config, now)) == SweepHorizon(config, now)
  {
    var log := SweepLog(config, now);
    HorizonIsMax(log);
    forall t: Table ensures t in HorizonOf(log) && HorizonOf(log)[t] == Cutoff(config, t, now) {
      SweepLogHas(config, now, t);
      var s := Statement(t, HorizonOf(log)[t]);
      assert s in log;
    }
  }

  /** A sweep, said row by row. */
  lemma SweepIsPurge(d: Db, config: Config, now: int)
    ensures Sweep(d, config, now) == Purge(d, SweepHorizon(config, now))
  {
    RunIsPurge(d, SweepLog(config, now));
    SweepHorizonIs(config, now);
  }

  // --------------------------------------------------------------- the counts

  function TotalRows(d: Db): nat {
    |d.sessions| + |d.verifications| + |d.accessTokens| + |d.refreshTokens| + |d.clientAssertions|
    + |d.pendingAuthorizations| + |d.deviceCodes| + |d.rateLimits| + |d.signingKeys| + |d.auditEvents|
  }

  function TokenCutoff(config: Config, now: int): int {
    Cutoff(config, AccessTokens, now)
  }

  /** Access rows that are not themselves old but whose refresh token is. */
  function Orphans(d: Db, config: Config, now: int): set<Id> {
    ChildrenOf(d.accessTokens, DeadRefresh(d.refreshTokens, TokenCutoff(config, now)))
    - DeadAccess(d.accessTokens, TokenCutoff(config, now))
  }

  lemma MinusSize<V>(rows: map<Id, V>, gone: set<Id>)
    requires gone <= rows.Keys
    ensures |rows - gone| == |rows| - |gone|
  {
    assert (rows - gone).Keys == rows.Keys - gone;
    assert |rows| == |rows.Keys| && |rows - gone| == |(rows - gone).Keys|;
  }

  lemma KeptSize(rows: map<Id, int>, h: Horizon, table: Table)
    requires table in h
    ensures |Kept(rows, h, table)| == |rows| - |Before(rows, h[table])|
  {
    assert Kept(rows, h, table) == rows - Before(rows, h[table]);
    MinusSize(rows, Before(rows, h[table]));
  }

  lemma KeysSize(rows: map<Id, Option<int>>, h: Horizon)
    requires SigningKeys in h
    ensures |KeptKeys(rows, h)| == |rows| - |KeysBefore(rows, h[SigningKeys])|
  {
    assert KeptKeys(rows, h) == rows - KeysBefore(rows, h[SigningKeys]);
    MinusSize(rows, KeysBefore(rows, h[SigningKeys]));
  }

  lemma RefreshSize(d: Db, h: Horizon)
    requires RefreshTokens in h
    ensures |KeptRefresh(d, h)| == |d.refreshTokens| - |DeadRefresh(d.refreshTokens, h[RefreshTokens])|
  {
    var gone := DeadRefresh(d.refreshTokens, h[RefreshTokens]);
    assert KeptRefresh(d, h).Keys == (d.refreshTokens - gone).Keys by {
      forall id | id in d.refreshTokens {
        DeadIsDeath(d.refreshTokens[id].expiresAt, d.refreshTokens[id].revoked, h[RefreshTokens]);
      }
    }
    MinusSize(d.refreshTokens, gone);
    SameSize(KeptRefresh(d, h), d.refreshTokens - gone);
  }

  lemma SameSize<V>(a: map<Id, V>, b: map<Id, V>)
    requires a.Keys == b.Keys
    ensures |a| == |b|
  {
    assert |a| == |a.Keys| && |b| == |b.Keys|;
  }

  lemma AccessGoneIs(d: Db, config: Config, now: int, id: Id)
    requires id in d.accessTokens
    ensures AccessGone(d, SweepHorizon(config, now), id)
       <==> id in DeadAccess(d.accessTokens, TokenCutoff(config, now)) || id in Orphans(d, config, now)
  {
    var a := d.accessTokens[id];
    var cutoff := TokenCutoff(config, now);
    DeadIsDeath(a.expiresAt, a.revoked, cutoff);
    if a.refreshId.Some? && a.refreshId.value in d.refreshTokens {
      var r := d.refreshTokens[a.refreshId.value];
      DeadIsDeath(r.expiresAt, r.revoked, cutoff);
    }
  }

  lemma AccessSize(d: Db, config: Config, now: int)
    ensures |KeptAccess(d, SweepHorizon(config, now))|
         == |d.accessTokens| - |DeadAccess(d.accessTokens, TokenCutoff(config, now))| - |Orphans(d, config, now)|
  {
    var dead, orphans := DeadAccess(d.accessTokens, TokenCutoff(config, now)), Orphans(d, config, now);
    var kept := KeptAccess(d, SweepHorizon(config, now));
    var gone := dead + orphans;
    AccessKeys(d, config, now);
    MinusSize(d.accessTokens, gone);
    SameSize(kept, d.accessTokens - gone);
    assert |gone| == |dead| + |orphans|;
  }

  lemma AccessKeys(d: Db, config: Config, now: int)
    ensures KeptAccess(d, SweepHorizon(config, now)).Keys
         == (d.accessTokens
             - (DeadAccess(d.accessTokens, TokenCutoff(config, now)) + Orphans(d, config, now))).Keys
  {
    forall id | id in d.accessTokens { AccessGoneIs(d, config, now, id); }
  }

  function KeptCount(rows: map<Id, int>, config: Config, table: Table, now: int): int {
    |rows| - |Before(rows, Cutoff(config, table, now))|
  }

  lemma SweptSize(rows: map<Id, int>, config: Config, table: Table, now: int)
    ensures |Kept(rows, SweepHorizon(config, now), table)| == KeptCount(rows, config, table, now)
  {
    KeptSize(rows, SweepHorizon(config, now), table);
  }

  /** The row counts of the swept tables, one by one. */
  lemma SweptSizes(d: Db, config: Config, now: int)
    ensures var e := Purge(d, SweepHorizon(config, now));
            && |e.sessions| == |d.sessions| - Due(d, config, Sessions, now)
            && |e.verifications| == |d.verifications| - Due(d, config, Verifications, now)
            && |e.clientAssertions| == |d.clientAssertions| - Due(d, config, ClientAssertions, now)
            && |e.pendingAuthorizations| == |d.pendingAuthorizations| - Due(d, config, PendingAuthorizations, now)
  {
    SweptSize(d.sessions, config, Sessions, now);
    SweptSize(d.verifications, config, Verifications, now);
    SweptSize(d.clientAssertions, config, ClientAssertions, now);
    SweptSize(d.pendingAuthorizations, config, PendingAuthorizations, now);
  }

  lemma SweptRecordSizes(d: Db, config: Config, now: int)
    ensures var e := Purge(d, SweepHorizon(config, now));
            && |e.deviceCodes| == |d.deviceCodes| - Due(d, config, DeviceCodes, now)
            && |e.rateLimits| == |d.rateLimits| - Due(d, config, RateLimits, now)
            && |e.auditEvents| == |d.auditEvents| - Due(d, config, AuditEvents, now)
  {
    SweptSize(d.deviceCodes, config, DeviceCodes, now);
    SweptSize(d.rateLimits, config, RateLimits, now);
    SweptSize(d.auditEvents, config, AuditEvents, now);
  }

  lemma SweptTokenSizes(d: Db, config: Config, now: int)
    ensures var e := Purge(d, SweepHorizon(config, now));
            && |e.signingKeys| == |d.signingKeys| - Due(d, config, SigningKeys, now)
            && |e.refreshTokens| == |d.refreshTokens| - Due(d, config, RefreshTokens, now)
            && |e.accessTokens| == |d.accessTokens| - Due(d, config, AccessTokens, now) - |Orphans(d, config, now)|
  {
    KeysSize(d.signingKeys, SweepHorizon(config, now));
    RefreshSize(d, SweepHorizon(config, now));
    AccessSize(d, config, now);
  }

  /** Rows removed are rows counted, plus the access rows that went with their parent. */
  lemma CascadeAccounting(d: Db, config: Config, now: int)
    ensures TotalRows(d) - TotalRows(Sweep(d, config, now))
         == CleanupTotal(DeadCounts(d, config, now)) + |Orphans(d, config, now)|
  {
    SweepIsPurge(d, config, now);
    SweptSizes(d, config, now);
    SweptRecordSizes(d, config, now);
    SweptTokenSizes(d, config, now);
  }

  /** Refresh tokens before access tokens: the order the source avoids. */
  function RefreshFirstLog(config: Config, now: int): seq<Statement> {
    var log := SweepLog(config, now);
    log[2 := log[3]][3 := log[2]]
  }

  /** Where a statement of one order stands in the other. */
  function Place(i: nat): nat {
    if i == 2 then 3 else if i == 3 then 2 else i
  }

  lemma SamePlace(config: Config, now: int, i: nat)
    requires i < 10
    ensures RefreshFirstLog(config, now)[Place(i)] == SweepLog(config, now)[i]
    ensures SweepLog(config, now)[Place(i)] == RefreshFirstLog(config, now)[i]
  {
  }

  lemma CoveredBy(log: seq<Statement>, other: seq<Statement>)
    requires |log| == |other| == 10 && forall i | 0 <= i < 10 :: other[Place(i)] == log[i]
    ensures Covered(log, other)
  {
    forall s | s in log ensures exists t | t in other :: t.table == s.table && s.cutoff <= t.cutoff {
      var i :| 0 <= i < 10 && log[i] == s;
      assert other[Place(i)] == s && other[Place(i)] in other;
    }
  }

  lemma RefreshFirstCovers(config: Config, now: int)
    ensures Covered(RefreshFirstLog(config, now), SweepLog(config, now))
    ensures Covered(SweepLog(config, now), RefreshFirstLog(config, now))
  {
    forall i | 0 <= i < 10 { SamePlace(config, now, i); }
    CoveredBy(SweepLog(config, now), RefreshFirstLog(config, now));
    CoveredBy(RefreshFirstLog(config, now), SweepLog(config, now));
  }

  /** The other order leaves the same rows. */
  lemma RefreshFirstSameRows(d: Db, config: Config, now: int)
    ensures Run(d, RefreshFirstLog(config, now)) == Sweep(d, config, now)
  {
    RefreshFirstCovers(config, now);
    OrderIsIrrelevant(d, RefreshFirstLog(config, now), SweepLog(config, now));
  }

  /** Access rows the other order would remove without counting them. */
  function UncountedRefreshFirst(d: Db, config: Config, now: int): set<Id> {
    ChildrenOf(d.accessTokens, DeadRefresh(d.refreshTokens, TokenCutoff(config, now)))
  }

  /** The other order reports fewer of the rows that went: what it does not count contains
      everything the source's order does not count. */
  lemma RefreshFirstCountsLess(d: Db, config: Config, now: int)
    ensures Orphans(d, config, now) <= UncountedRefreshFirst(d, config, now)
    ensures |d.accessTokens| - |Sweep(d, config, now).accessTokens|
         == Matched(Delete(d, RefreshTokens, TokenCutoff(config, now)), AccessTokens, TokenCutoff(config, now))
            + |UncountedRefreshFirst(d, config, now)|
  {
    SweepIsPurge(d, config, now);
    AccessSize(d, config, now);
    var cutoff, uncounted := TokenCutoff(config, now), UncountedRefreshFirst(d, config, now);
    var dead := DeadAccess(d.accessTokens, cutoff);
    DeadAmongTheRest(d.accessTokens, uncounted, cutoff);
    SplitSizes(dead, uncounted);
  }

  lemma DeadAmongTheRest(rows: map<Id, AccessToken>, gone: set<Id>, cutoff: int)
    ensures DeadAccess(rows - gone, cutoff) == DeadAccess(rows, cutoff) - gone
  {
  }

  lemma SplitSizes(a: set<Id>, b: set<Id>)
    ensures |a| + |b - a| == |a - b| + |b|
  {
    assert a + (b - a) == (a - b) + b;
    assert |a + (b - a)| == |a| + |b - a|;
    assert |(a - b) + b| == |a - b| + |b|;
  }

  /** Every access token whose refresh token is on record dies no later than that. */
  ghost predicate ChildrenDieFirst(d: Db) {
    forall id | id in d.accessTokens && d.accessTokens[id].refreshId.Some?
                && d.accessTokens[id].refreshId.value in d.refreshTokens ::
      var a, r := d.accessTokens[id], d.refreshTokens[d.accessTokens[id].refreshId.value];
      DeathOf(a.expiresAt, a.revoked) <= DeathOf(r.expiresAt, r.revoked)
  }

  /** The counts of every sweep are exact just when no child outlives its parent. */
  lemma CountsAreExactIff(d: Db, config: Config)
    ensures (forall now :: Orphans(d, config, now) == {}) <==> ChildrenDieFirst(d)
  {
    forall id, now | id in Orphans(d, config, now) ensures !ChildrenDieFirst(d) {
      var a, r := d.accessTokens[id], d.refreshTokens[d.accessTokens[id].refreshId.value];
      DeadIsDeath(a.expiresAt, a.revoked, TokenCutoff(config, now));
      DeadIsDeath(r.expiresAt, r.revoked, TokenCutoff(config, now));
    }
    if !ChildrenDieFirst(d) {
      var id :| id in d.accessTokens && d.accessTokens[id].refreshId.Some?
                && d.accessTokens[id].refreshId.value in d.refreshTokens
                && DeathOf(d.accessTokens[id].expiresAt, d.accessTokens[id].revoked)
                   > DeathOf(d.refreshTokens[d.accessTokens[id].refreshId.value].expiresAt,
                             d.refreshTokens[d.accessTokens[id].refreshId.value].revoked);
      var a, r := d.accessTokens[id], d.refreshTokens[d.accessTokens[id].refreshId.value];
      var cutoff := DeathOf(r.expiresAt, r.revoked) + 1;
      var now := cutoff + TOKEN_GRACE_DAYS * 86_400 * 1000;
      assert TokenCutoff(config, now) == cutoff;
      DeadIsDeath(a.expiresAt, a.revoked, cutoff);
      DeadIsDeath(r.expiresAt, r.revoked, cutoff);
      assert id in Orphans(d, config, now);
    }
  }

  // ------------------------------------------------------------------- safety

  /** Thirty days. */
  const TOKEN_GRACE_MS: int := 2_592_000_000

  ghost predicate AccessOverdue(d: Db, id: Id, time: int)
    requires id in d.accessTokens
  {
    var a := d.accessTokens[id];
    || DeathOf(a.expiresAt, a.revoked) + TOKEN_GRACE_MS < time
    || (a.refreshId.Some? && RefreshOverdue(d, a.refreshId.value, time))
  }

  ghost predicate RefreshOverdue(d: Db, id: Id, time: int) {
    && id in d.refreshTokens
    && DeathOf(d.refreshTokens[id].expiresAt, d.refreshTokens[id].revoked) + TOKEN_GRACE_MS < time
  }

  lemma NoLaterHorizon(config: Config, log: seq<Statement>, time: int)
    requires forall s | s in log :: NoLaterThan(config, s, time)
    ensures forall t | t in HorizonOf(log) :: HorizonOf(log)[t] <= Cutoff(config, t, time)
  {
    HorizonIsMax(log);
    forall t | t in HorizonOf(log) ensures HorizonOf(log)[t] <= Cutoff(config, t, time) {
      assert NoLaterThan(config, Statement(t, HorizonOf(log)[t]), time);
    }
  }

  lemma GoneAccessIsOverdue(d: Db, h: Horizon, time: int, id: Id)
    requires id in d.accessTokens && AccessGone(d, h, id)
    requires RefreshTokens in h ==> h[RefreshTokens] <= time - TOKEN_GRACE_MS
    requires AccessTokens in h ==> h[AccessTokens] <= time - TOKEN_GRACE_MS
    ensures AccessOverdue(d, id, time)
  {
  }

  lemma GoneRefreshIsOverdue(d: Db, h: Horizon, time: int, id: Id)
    requires RefreshGone(d, h, id)
    requires RefreshTokens in h ==> h[RefreshTokens] <= time - TOKEN_GRACE_MS
    ensures RefreshOverdue(d, id, time)
  {
  }

  /** Over any run of sweeps up to `time`, complete or not: a token row goes only when it,
      or the refresh token an access token hangs on, has been dead for over 30 days; and a
      key goes only when its grace period is over. */
  lemma PurgedOnlyWhenDue(d: Db, config: Config, log: seq<Statement>, time: int)
    requires forall s | s in log :: NoLaterThan(config, s, time)
    ensures forall id | id in d.accessTokens && id !in Run(d, log).accessTokens :: AccessOverdue(d, id, time)
    ensures forall id | id in d.refreshTokens && id !in Run(d, log).refreshTokens :: RefreshOverdue(d, id, time)
    ensures forall id | id in d.signingKeys && id !in Run(d, log).signingKeys ::
              && d.signingKeys[id].Some?
              && d.signingKeys[id].value + config.jwksGracePeriodSeconds * 1000 < time
  {
    RunIsPurge(d, log);
    NoLaterHorizon(config, log, time);
    var h, e := HorizonOf(log), Run(d, log);
    forall id | id in d.accessTokens && id !in e.accessTokens ensures AccessOverdue(d, id, time) {
      GoneAccessIsOverdue(d, h, time, id);
    }
    forall id | id in d.refreshTokens && id !in e.refreshTokens ensures RefreshOverdue(d, id, time) {
      GoneRefreshIsOverdue(d, h, time, id);
    }
  }

  /** The rows of a plain table that are not before `cutoff`. */
  function Since(rows: map<Id, int>, cutoff: int): map<Id, int> {
    map id | id in rows && cutoff <= rows[id] :: rows[id]
  }

  /** A reference to a session that has expired is lost with it. */
  function LiveSession(d: Db, sessionId: Option<Id>, now: int): Option<Id> {
    if sessionId.Some? && sessionId.value in d.sessions && d.sessions[sessionId.value] < now then None else sessionId
  }

  /** One sweep removes exactly the tokens and keys that are due, and changes nothing in
      the others but references to expired sessions. */
  lemma SweepIsExact(d: Db, config: Config, now: int)
    ensures Sweep(d, config, now).accessTokens == map id | id in d.accessTokens && !AccessOverdue(d, id, now) ::
              d.accessTokens[id].(sessionId := LiveSession(d, d.accessTokens[id].sessionId, now))
    ensures Sweep(d, config, now).refreshTokens == map id | id in d.refreshTokens && !RefreshOverdue(d, id, now) ::
              d.refreshTokens[id].(sessionId := LiveSession(d, d.refreshTokens[id].sessionId, now))
    ensures Sweep(d, config, now).signingKeys == map id | id in d.signingKeys &&
              (d.signingKeys[id].None? || now <= d.signingKeys[id].value + config.jwksGracePeriodSeconds * 1000) ::
              d.signingKeys[id]
  {
    SweepIsPurge(d, config, now);
    SweptTokens(d, config, now);
    SweptRefresh(d, config, now);
    assert SweepHorizon(config, now)[SigningKeys] == now - config.jwksGracePeriodSeconds * 1000;
  }

  lemma SweptTokens(d: Db, config: Config, now: int)
    ensures KeptAccess(d, SweepHorizon(config, now)) == map id | id in d.accessTokens && !AccessOverdue(d, id, now) ::
              d.accessTokens[id].(sessionId := LiveSession(d, d.accessTokens[id].sessionId, now))
  {
    var h := SweepHorizon(config, now);
    assert h[RefreshTokens] == now - TOKEN_GRACE_MS && h[AccessTokens] == now - TOKEN_GRACE_MS && h[Sessions] == now;
  }

  lemma SweptRefresh(d: Db, config: Config, now: int)
    ensures KeptRefresh(d, SweepHorizon(config, now)) ==
            map id | id in d.refreshTokens && !RefreshOverdue(d, id, now) ::
              d.refreshTokens[id].(sessionId := LiveSession(d, d.refreshTokens[id].sessionId, now))
  {
    var h := SweepHorizon(config, now);
    assert h[RefreshTokens] == now - TOKEN_GRACE_MS && h[Sessions] == now;
  }

  lemma SweptSince(rows: map<Id, int>, config: Config, table: Table, now: int, cutoff: int)
    requires Cutoff(config, table, now) == cutoff
    ensures Kept(rows, SweepHorizon(config, now), table) == Since(rows, cutoff)
  {
  }

  /** The same for the plain tables: what lives until its expiry. */
  lemma SweepIsExactOnExpiries(d: Db, config: Config, now: int)
    ensures var e := Sweep(d, config, now);
            && e.sessions == Since(d.sessions, now)
            && e.verifications == Since(d.verifications, now)
            && e.clientAssertions == Since(d.clientAssertions, now)
            && e.pendingAuthorizations == Since(d.pendingAuthorizations, now)
            && e.deviceCodes == Since(d.deviceCodes, now)
  {
    SweepIsPurge(d, config, now);
    SweptSince(d.sessions, config, Sessions, now, now);
    SweptSince(d.verifications, config, Verifications, now, now);
    SweptSince(d.clientAssertions, config, ClientAssertions, now, now);
    SweptSince(d.pendingAuthorizations, config, PendingAuthorizations, now, now);
    SweptSince(d.deviceCodes, config, DeviceCodes, now, now);
  }

  /** Counters are kept a day, audit events for the retention. */
  lemma SweepIsExactOnRecords(d: Db, config: Config, now: int)
    ensures var e := Sweep(d, config, now);
            && e.rateLimits == Since(d.rateLimits, now - 86_400_000)
            && e.auditEvents == Since(d.auditEvents, now - config.retentionDays * 86_400_000)
  {
    SweepIsPurge(d, config, now);
    SweptSince(d.rateLimits, config, RateLimits, now, now - 86_400_000);
    SweptSince(d.auditEvents, config, AuditEvents, now, now - config.retentionDays * 86_400_000);
  }

  /** Each number a sweep reports is the rows its own table lost; only of the access tokens did
      more go. */
  lemma CountsAreRowsLost(d: Db, config: Config, now: int)
    ensures var c, e := DeadCounts(d, config, now), Sweep(d, config, now);
            && c.sessions == |d.sessions| - |e.sessions|
            && c.verifications == |d.verifications| - |e.verifications|
            && c.clientAssertions == |d.clientAssertions| - |e.clientAssertions|
            && c.pendingAuthorizations == |d.pendingAuthorizations| - |e.pendingAuthorizations|
  {
    SweepIsPurge(d, config, now);
    SweptSizes(d, config, now);
  }

  lemma RecordCountsAreRowsLost(d: Db, config: Config, now: int)
    ensures var c, e := DeadCounts(d, config, now), Sweep(d, config, now);
            && c.deviceCodes == |d.deviceCodes| - |e.deviceCodes|
            && c.rateLimits == |d.rateLimits| - |e.rateLimits|
            && c.auditEvents == |d.auditEvents| - |e.auditEvents|
  {
    SweepIsPurge(d, config, now);
    SweptRecordSizes(d, config, now);
  }

  lemma TokenCountsAreRowsLost(d: Db, config: Config, now: int)
    ensures var c, e := DeadCounts(d, config, now), Sweep(d, config, now);
            && c.signingKeys == |d.signingKeys| - |e.signingKeys|
            && c.refreshTokens == |d.refreshTokens| - |e.refreshTokens|
            && c.accessTokens + |Orphans(d, config, now)| == |d.accessTokens| - |e.accessTokens|
  {
    SweepIsPurge(d, config, now);
    SweptTokenSizes(d, config, now);
  }
}
