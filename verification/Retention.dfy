/** The retention sweep over ten tables, after `apps/web/src/server/cleanup.ts`. The
    foreign keys are those of `apps/web/src/server/db/schema/auth-schema.ts`: access
    tokens cascade from refresh tokens, both lose their session when it goes. Times are
    milliseconds. */
module Retention {
  import opened Text

  type Id = string

  const TOKEN_GRACE_DAYS: nat := 30
  const RATE_LIMIT_STALE_HOURS: nat := 24

  datatype Config = Config(retentionDays: nat, jwksGracePeriodSeconds: nat)

  datatype RefreshToken = RefreshToken(expiresAt: int, revoked: Option<int>, sessionId: Option<Id>)
  datatype AccessToken = AccessToken(expiresAt: int, revoked: Option<int>, refreshId: Option<Id>, sessionId: Option<Id>)

  /** The columns the sweep reads, by primary key. A signing key may have no expiry. */
  datatype Db = Db(
    sessions: map<Id, int>, verifications: map<Id, int>,
    accessTokens: map<Id, AccessToken>, refreshTokens: map<Id, RefreshToken>,
    clientAssertions: map<Id, int>, pendingAuthorizations: map<Id, int>, deviceCodes: map<Id, int>,
    rateLimits: map<Id, int>, signingKeys: map<Id, Option<int>>, auditEvents: map<Id, int>)

  datatype Counts = Counts(
    sessions: nat, verifications: nat, accessTokens: nat, refreshTokens: nat, clientAssertions: nat,
    pendingAuthorizations: nat, deviceCodes: nat, rateLimits: nat, signingKeys: nat, auditEvents: nat)

  function CleanupTotal(c: Counts): nat {
    c.sessions + c.verifications + c.accessTokens + c.refreshTokens + c.clientAssertions
    + c.pendingAuthorizations + c.deviceCodes + c.rateLimits + c.signingKeys + c.auditEvents
  }

  function Minus(now: int, seconds: nat): int {
    now - seconds * 1000
  }

  // ------------------------------------------------- one statement at a time

  datatype Table =
    | Sessions | Verifications | AccessTokens | RefreshTokens | ClientAssertions
    | PendingAuthorizations | DeviceCodes | RateLimits | SigningKeys | AuditEvents

  /** The cutoff a sweep at `now` uses for a table. */
  function Cutoff(config: Config, table: Table, now: int): int {
    match table
    case AccessTokens | RefreshTokens => Minus(now, TOKEN_GRACE_DAYS * 86_400)
    case RateLimits => Minus(now, RATE_LIMIT_STALE_HOURS * 3600)
    case SigningKeys => Minus(now, config.jwksGracePeriodSeconds)
    case AuditEvents => Minus(now, config.retentionDays * 86_400)
    case _ => now
  }

  /** `lt(column, cutoff)` on a column that is never null. */
  function Before(rows: map<Id, int>, cutoff: int): set<Id> {
    set id | id in rows && rows[id] < cutoff
  }

  /** `lt` on a null column is null, which no `where` accepts. */
  function KeysBefore(rows: map<Id, Option<int>>, cutoff: int): set<Id> {
    set id | id in rows && rows[id].Some? && rows[id].value < cutoff
  }

  predicate IsDead(expiresAt: int, revoked: Option<int>, cutoff: int) {
    expiresAt < cutoff || (revoked.Some? && revoked.value < cutoff)
  }

  function DeadAccess(rows: map<Id, AccessToken>, cutoff: int): set<Id> {
    set id | id in rows && IsDead(rows[id].expiresAt, rows[id].revoked, cutoff)
  }

  function DeadRefresh(rows: map<Id, RefreshToken>, cutoff: int): set<Id> {
    set id | id in rows && IsDead(rows[id].expiresAt, rows[id].revoked, cutoff)
  }

  /** Access rows that go with their refresh token. */
  function ChildrenOf(rows: map<Id, AccessToken>, parents: set<Id>): set<Id> {
    set id | id in rows && rows[id].refreshId.Some? && rows[id].refreshId.value in parents
  }

  function Detached(sessionId: Option<Id>, gone: set<Id>): Option<Id> {
    if sessionId.Some? && sessionId.value in gone then None else sessionId
  }

  function DetachAccess(rows: map<Id, AccessToken>, gone: set<Id>): map<Id, AccessToken> {
    map id | id in rows :: rows[id].(sessionId := Detached(rows[id].sessionId, gone))
  }

  function DetachRefresh(rows: map<Id, RefreshToken>, gone: set<Id>): map<Id, RefreshToken> {
    map id | id in rows :: rows[id].(sessionId := Detached(rows[id].sessionId, gone))
  }

  /** The effect of one of the sweep's delete statements, foreign keys included. */
  function Delete(d: Db, table: Table, cutoff: int): Db {
    match table
    case Sessions =>
      var gone := Before(d.sessions, cutoff);
      d.(sessions := d.sessions - gone,
         accessTokens := DetachAccess(d.accessTokens, gone),
         refreshTokens := DetachRefresh(d.refreshTokens, gone))
    case Verifications => d.(verifications := d.verifications - Before(d.verifications, cutoff))
    case AccessTokens => d.(accessTokens := d.accessTokens - DeadAccess(d.accessTokens, cutoff))
    case RefreshTokens =>
      var gone := DeadRefresh(d.refreshTokens, cutoff);
      d.(refreshTokens := d.refreshTokens - gone,
         accessTokens := d.accessTokens - ChildrenOf(d.accessTokens, gone))
    case ClientAssertions => d.(clientAssertions := d.clientAssertions - Before(d.clientAssertions, cutoff))
    case PendingAuthorizations =>
      d.(pendingAuthorizations := d.pendingAuthorizations - Before(d.pendingAuthorizations, cutoff))
    case DeviceCodes => d.(deviceCodes := d.deviceCodes - Before(d.deviceCodes, cutoff))
    case RateLimits => d.(rateLimits := d.rateLimits - Before(d.rateLimits, cutoff))
    case SigningKeys => d.(signingKeys := d.signingKeys - KeysBefore(d.signingKeys, cutoff))
    case AuditEvents => d.(auditEvents := d.auditEvents - Before(d.auditEvents, cutoff))
  }

  /** The tables in the order one sweep empties them. */
  function TableAt(i: nat): Table {
    match i
    case 0 => Sessions
    case 1 => Verifications
    case 2 => AccessTokens
    case 3 => RefreshTokens
    case 4 => ClientAssertions
    case 5 => PendingAuthorizations
    case 6 => DeviceCodes
    case 7 => RateLimits
    case 8 => SigningKeys
    case _ => AuditEvents
  }

  datatype Statement = Statement(table: Table, cutoff: int)

  function SweepLog(config: Config, now: int): (log: seq<Statement>)
    ensures |log| == 10
  {
    seq(10, i requires 0 <= i < 10 => Statement(TableAt(i), Cutoff(config, TableAt(i), now)))
  }

  /** Running statements one after the other. */
  function Run(d: Db, log: seq<Statement>): Db {
    if log == [] then d
    else
      var last := log[|log| - 1];
      Delete(Run(d, log[..|log| - 1]), last.table, last.cutoff)
  }

  function Sweep(d: Db, config: Config, now: int): Db {
    Run(d, SweepLog(config, now))
  }

  // ----------------------------------------------------------- the closed form

  /** The latest cutoff each table has been swept with; a table never swept is absent. */
  type Horizon = map<Table, int>

  function Raise(h: Horizon, s: Statement): Horizon {
    if s.table in h && h[s.table] >= s.cutoff then h else h[s.table := s.cutoff]
  }

  function HorizonOf(log: seq<Statement>): Horizon {
    if log == [] then map[] else Raise(HorizonOf(log[..|log| - 1]), log[|log| - 1])
  }

  predicate Behind(h: Horizon, table: Table, time: int) {
    table in h && time < h[table]
  }

  function Kept(rows: map<Id, int>, h: Horizon, table: Table): map<Id, int> {
    map id | id in rows && !Behind(h, table, rows[id]) :: rows[id]
  }

  /** The moment a token died. */
  function DeathOf(expiresAt: int, revoked: Option<int>): int {
    if revoked.Some? && revoked.value < expiresAt then revoked.value else expiresAt
  }

  predicate SessionGone(d: Db, h: Horizon, id: Id) {
    id in d.sessions && Behind(h, Sessions, d.sessions[id])
  }

  predicate RefreshGone(d: Db, h: Horizon, id: Id) {
    && id in d.refreshTokens
    && Behind(h, RefreshTokens, DeathOf(d.refreshTokens[id].expiresAt, d.refreshTokens[id].revoked))
  }

  predicate AccessGone(d: Db, h: Horizon, id: Id)
    requires id in d.accessTokens
  {
    var a := d.accessTokens[id];
    || Behind(h, AccessTokens, DeathOf(a.expiresAt, a.revoked))
    || (a.refreshId.Some? && RefreshGone(d, h, a.refreshId.value))
  }

  function StillIn(d: Db, h: Horizon, sessionId: Option<Id>): Option<Id> {
    if sessionId.Some? && SessionGone(d, h, sessionId.value) then None else sessionId
  }

  function KeptAccess(d: Db, h: Horizon): map<Id, AccessToken> {
    map id | id in d.accessTokens && !AccessGone(d, h, id) ::
      d.accessTokens[id].(sessionId := StillIn(d, h, d.accessTokens[id].sessionId))
  }

  function KeptRefresh(d: Db, h: Horizon): map<Id, RefreshToken> {
    map id | id in d.refreshTokens && !RefreshGone(d, h, id) ::
      d.refreshTokens[id].(sessionId := StillIn(d, h, d.refreshTokens[id].sessionId))
  }

  function KeptKeys(rows: map<Id, Option<int>>, h: Horizon): map<Id, Option<int>> {
    map id | id in rows && !(rows[id].Some? && Behind(h, SigningKeys, rows[id].value)) :: rows[id]
  }

  /** What is left of `d`, said row by row, once every table has been swept up to `h`. */
  function Purge(d: Db, h: Horizon): Db {
    Db(Kept(d.sessions, h, Sessions), Kept(d.verifications, h, Verifications),
       KeptAccess(d, h), KeptRefresh(d, h),
       Kept(d.clientAssertions, h, ClientAssertions),
       Kept(d.pendingAuthorizations, h, PendingAuthorizations),
       Kept(d.deviceCodes, h, DeviceCodes), Kept(d.rateLimits, h, RateLimits),
       KeptKeys(d.signingKeys, h), Kept(d.auditEvents, h, AuditEvents))
  }

  lemma NothingGone(d: Db)
    ensures KeptAccess(d, map[]) == d.accessTokens && KeptRefresh(d, map[]) == d.refreshTokens
  {
    var h: Horizon := map[];
    var access, refresh := KeptAccess(d, h), KeptRefresh(d, h);
    assert access.Keys == d.accessTokens.Keys && refresh.Keys == d.refreshTokens.Keys;
  }

  lemma KeptNothing(rows: map<Id, int>, table: Table)
    ensures Kept(rows, map[], table) == rows
  {
  }

  lemma PurgeNothing(d: Db)
    ensures Purge(d, map[]) == d
  {
    NothingGone(d);
    KeptNothing(d.sessions, Sessions);
    KeptNothing(d.verifications, Verifications);
    KeptNothing(d.clientAssertions, ClientAssertions);
    KeptNothing(d.pendingAuthorizations, PendingAuthorizations);
    KeptNothing(d.deviceCodes, DeviceCodes);
    KeptNothing(d.rateLimits, RateLimits);
    KeptNothing(d.auditEvents, AuditEvents);
    assert KeptKeys(d.signingKeys, map[]) == d.signingKeys;
  }

  lemma DeadIsDeath(expiresAt: int, revoked: Option<int>, cutoff: int)
    ensures IsDead(expiresAt, revoked, cutoff) <==> DeathOf(expiresAt, revoked) < cutoff
  {
  }

  lemma BehindRaised(h: Horizon, s: Statement, table: Table, time: int)
    ensures Behind(Raise(h, s), table, time) <==> Behind(h, table, time) || (table == s.table && time < s.cutoff)
  {
  }

  lemma KeptRaised(rows: map<Id, int>, h: Horizon, s: Statement, table: Table)
    ensures Kept(rows, Raise(h, s), table)
         == if table == s.table then Kept(rows, h, table) - Before(Kept(rows, h, table), s.cutoff)
            else Kept(rows, h, table)
  {
    var g := Raise(h, s);
    if table != s.table {
      assert forall id | id in rows :: Behind(g, table, rows[id]) == Behind(h, table, rows[id]);
    } else {
      forall id | id in rows { BehindRaised(h, s, table, rows[id]); }
    }
  }

  lemma KeysRaised(rows: map<Id, Option<int>>, h: Horizon, s: Statement)
    ensures KeptKeys(rows, Raise(h, s))
         == if s.table == SigningKeys then KeptKeys(rows, h) - KeysBefore(KeptKeys(rows, h), s.cutoff)
            else KeptKeys(rows, h)
  {
  }

  /** A later sweep of the sessions detaches exactly the rows the horizon says. */
  lemma SessionsRaised(d: Db, h: Horizon, s: Statement, sessionId: Option<Id>)
    requires s.table == Sessions
    ensures Detached(StillIn(d, h, sessionId), Before(Kept(d.sessions, h, Sessions), s.cutoff))
         == StillIn(d, Raise(h, s), sessionId)
  {
  }

  lemma RefreshBySession(d: Db, h: Horizon, s: Statement)
    requires s.table == Sessions
    ensures KeptRefresh(d, Raise(h, s))
         == DetachRefresh(KeptRefresh(d, h), Before(Kept(d.sessions, h, Sessions), s.cutoff))
  {
    forall id | id in d.refreshTokens { SessionsRaised(d, h, s, d.refreshTokens[id].sessionId); }
  }

  lemma RefreshByAge(d: Db, h: Horizon, s: Statement)
    requires s.table == RefreshTokens
    ensures KeptRefresh(d, Raise(h, s)) == KeptRefresh(d, h) - DeadRefresh(KeptRefresh(d, h), s.cutoff)
  {
    var r := KeptRefresh(d, h) - DeadRefresh(KeptRefresh(d, h), s.cutoff);
    forall id | id in d.refreshTokens ensures id in r <==> id in KeptRefresh(d, Raise(h, s)) {
      DeadIsDeath(d.refreshTokens[id].expiresAt, d.refreshTokens[id].revoked, s.cutoff);
    }
  }

  lemma RefreshUntouched(d: Db, h: Horizon, s: Statement)
    requires s.table != Sessions && s.table != RefreshTokens
    ensures KeptRefresh(d, Raise(h, s)) == KeptRefresh(d, h)
  {
  }

  /** The refresh rows that a sweep removes now, seen from the first table state. */
  lemma NewlyGone(d: Db, h: Horizon, s: Statement, id: Id)
    requires s.table == RefreshTokens
    ensures id in DeadRefresh(KeptRefresh(d, h), s.cutoff)
       <==> RefreshGone(d, Raise(h, s), id) && !RefreshGone(d, h, id)
  {
    if id in d.refreshTokens {
      DeadIsDeath(d.refreshTokens[id].expiresAt, d.refreshTokens[id].revoked, s.cutoff);
    }
  }

  lemma AccessBySession(d: Db, h: Horizon, s: Statement)
    requires s.table == Sessions
    ensures KeptAccess(d, Raise(h, s))
         == DetachAccess(KeptAccess(d, h), Before(Kept(d.sessions, h, Sessions), s.cutoff))
  {
    forall id | id in d.accessTokens { SessionsRaised(d, h, s, d.accessTokens[id].sessionId); }
  }

  lemma AccessByAge(d: Db, h: Horizon, s: Statement)
    requires s.table == AccessTokens
    ensures KeptAccess(d, Raise(h, s)) == KeptAccess(d, h) - DeadAccess(KeptAccess(d, h), s.cutoff)
  {
    var r := KeptAccess(d, h) - DeadAccess(KeptAccess(d, h), s.cutoff);
    forall id | id in d.accessTokens ensures id in r <==> id in KeptAccess(d, Raise(h, s)) {
      DeadIsDeath(d.accessTokens[id].expiresAt, d.accessTokens[id].revoked, s.cutoff);
    }
  }

  lemma AccessByParent(d: Db, h: Horizon, s: Statement)
    requires s.table == RefreshTokens
    ensures KeptAccess(d, Raise(h, s))
         == KeptAccess(d, h) - ChildrenOf(KeptAccess(d, h), DeadRefresh(KeptRefresh(d, h), s.cutoff))
  {
    var r := KeptAccess(d, h) - ChildrenOf(KeptAccess(d, h), DeadRefresh(KeptRefresh(d, h), s.cutoff));
    forall id | id in d.accessTokens ensures id in r <==> id in KeptAccess(d, Raise(h, s)) {
      var parent := d.accessTokens[id].refreshId;
      if parent.Some? {
        NewlyGone(d, h, s, parent.value);
        RefreshGoneRaised(d, h, s, parent.value);
      }
    }
  }

  lemma RefreshGoneRaised(d: Db, h: Horizon, s: Statement, id: Id)
    ensures RefreshGone(d, h, id) ==> RefreshGone(d, Raise(h, s), id)
  {
  }

  lemma AccessUntouched(d: Db, h: Horizon, s: Statement)
    requires s.table != Sessions && s.table != RefreshTokens && s.table != AccessTokens
    ensures KeptAccess(d, Raise(h, s)) == KeptAccess(d, h)
  {
  }

  lemma TokensRaised(d: Db, h: Horizon, s: Statement)
    ensures Delete(Purge(d, h), s.table, s.cutoff).accessTokens == KeptAccess(d, Raise(h, s))
    ensures Delete(Purge(d, h), s.table, s.cutoff).refreshTokens == KeptRefresh(d, Raise(h, s))
  {
    match s.table
    case Sessions =>
      AccessBySession(d, h, s);
      RefreshBySession(d, h, s);
    case AccessTokens =>
      AccessByAge(d, h, s);
      RefreshUntouched(d, h, s);
    case RefreshTokens =>
      AccessByParent(d, h, s);
      RefreshByAge(d, h, s);
    case _ =>
      AccessUntouched(d, h, s);
      RefreshUntouched(d, h, s);
  }

  /** One more statement moves the closed form to the raised horizon. */
  lemma DeleteRaises(d: Db, h: Horizon, s: Statement)
    ensures Delete(Purge(d, h), s.table, s.cutoff) == Purge(d, Raise(h, s))
  {
    KeptRaised(d.sessions, h, s, Sessions);
    KeptRaised(d.verifications, h, s, Verifications);
    KeptRaised(d.clientAssertions, h, s, ClientAssertions);
    KeptRaised(d.pendingAuthorizations, h, s, PendingAuthorizations);
    KeptRaised(d.deviceCodes, h, s, DeviceCodes);
    KeptRaised(d.rateLimits, h, s, RateLimits);
    KeptRaised(d.auditEvents, h, s, AuditEvents);
    KeysRaised(d.signingKeys, h, s);
    TokensRaised(d, h, s);
  }

  /** Any run of delete statements, from any sweeps in any interleaving, complete or cut
      short, leaves what its horizon says and nothing depends on the order. */
  lemma {:induction false} RunIsPurge(d: Db, log: seq<Statement>)
    ensures Run(d, log) == Purge(d, HorizonOf(log))
  {
    if log == [] {
      PurgeNothing(d);
    } else {
      RunIsPurge(d, log[..|log| - 1]);
      DeleteRaises(d, HorizonOf(log[..|log| - 1]), log[|log| - 1]);
    }
  }
}
