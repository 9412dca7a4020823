/** What sweeps do over whole runs: absorption, accounting and safety, with the sweep as
    a method that deletes in place. */
module RetentionSweep {
  import opened Text
  import opened Retention

  // -------------------------------------------------------- horizons as maxima

  /** A horizon holds the latest cutoff of every table in the log, and nothing else. */
  lemma {:induction false} HorizonIsMax(log: seq<Statement>)
    ensures forall s | s in log :: s.table in HorizonOf(log) && s.cutoff <= HorizonOf(log)[s.table]
    ensures forall t | t in HorizonOf(log) :: Statement(t, HorizonOf(log)[t]) in log
  {
    if log != [] {
      var front, last := log[..|log| - 1], log[|log| - 1];
      HorizonIsMax(front);
      assert log == front + [last];
    }
  }

  /** Every statement is matched by one on the same table at least as late. */
  ghost predicate Covered(log: seq<Statement>, cover: seq<Statement>) {
    forall s | s in log :: exists t | t in cover :: t.table == s.table && s.cutoff <= t.cutoff
  }

  lemma CoveredHorizon(log: seq<Statement>, cover: seq<Statement>)
    requires Covered(log, cover)
    ensures forall t | t in HorizonOf(log) :: t in HorizonOf(cover) && HorizonOf(log)[t] <= HorizonOf(cover)[t]
  {
    HorizonIsMax(log);
    HorizonIsMax(cover);
    forall t | t in HorizonOf(log)
      ensures t in HorizonOf(cover) && HorizonOf(log)[t] <= HorizonOf(cover)[t]
    {
      var s := Statement(t, HorizonOf(log)[t]);
      var c :| c in cover && c.table == s.table && s.cutoff <= c.cutoff;
    }
  }

  /** Two logs that cover each other leave the same rows, whatever their order. */
  lemma OrderIsIrrelevant(d: Db, log: seq<Statement>, other: seq<Statement>)
    requires Covered(log, other) && Covered(other, log)
    ensures Run(d, log) == Run(d, other)
  {
    CoveredHorizon(log, other);
    CoveredHorizon(other, log);
    SameHorizon(HorizonOf(log), HorizonOf(other));
    RunIsPurge(d, log);
    RunIsPurge(d, other);
  }

  lemma SameHorizon(h: Horizon, g: Horizon)
    requires forall t | t in h :: t in g && h[t] <= g[t]
    requires forall t | t in g :: t in h && g[t] <= h[t]
    ensures h == g
  {
  }

  lemma CutoffGrows(config: Config, table: Table, t: int, u: int)
    requires t <= u
    ensures Cutoff(config, table, t) <= Cutoff(config, table, u)
  {
  }

  lemma SweepLogHas(config: Config, now: int, table: Table)
    ensures Statement(table, Cutoff(config, table, now)) in SweepLog(config, now)
  {
    var i: nat :| i < 10 && TableAt(i) == table by { TableInOrder(table); }
    assert SweepLog(config, now)[i] == Statement(table, Cutoff(config, table, now));
  }

  lemma TableInOrder(table: Table)
    ensures exists i: nat :: i < 10 && TableAt(i) == table
  {
    var i := match table
      case Sessions => 0 case Verifications => 1 case AccessTokens => 2 case RefreshTokens => 3
      case ClientAssertions => 4 case PendingAuthorizations => 5 case DeviceCodes => 6
      case RateLimits => 7 case SigningKeys => 8 case AuditEvents => 9;
    assert TableAt(i) == table;
  }

  /** A statement some sweep at or before `time` may have issued. */
  ghost predicate NoLaterThan(config: Config, s: Statement, time: int) {
    s.cutoff <= Cutoff(config, s.table, time)
  }

  lemma SweepLogIsNoLater(config: Config, now: int, time: int)
    requires now <= time
    ensures forall s | s in SweepLog(config, now) :: NoLaterThan(config, s, time)
  {
    forall s | s in SweepLog(config, now) ensures NoLaterThan(config, s, time) {
      var i :| 0 <= i < 10 && SweepLog(config, now)[i] == s;
      CutoffGrows(config, s.table, now, time);
    }
  }

  /** Whatever statements ran before, and whatever else runs no later: once a whole sweep
      at `time` is among them, the state is that of the one sweep. */
  lemma Absorption(d: Db, config: Config, log: seq<Statement>, time: int)
    requires forall s | s in log :: NoLaterThan(config, s, time)
    requires forall s | s in SweepLog(config, time) :: s in log
    ensures Run(d, log) == Sweep(d, config, time)
  {
    forall s | s in log
      ensures exists t | t in SweepLog(config, time) :: t.table == s.table && s.cutoff <= t.cutoff
    {
      SweepLogHas(config, time, s.table);
    }
    assert Covered(SweepLog(config, time), log);
    OrderIsIrrelevant(d, log, SweepLog(config, time));
  }

  lemma {:induction false} RunAppend(d: Db, a: seq<Statement>, b: seq<Statement>)
    ensures Run(d, a + b) == Run(Run(d, a), b)
  {
    if b == [] {
      assert a + b == a;
    } else {
      assert (a + b)[..|a + b| - 1] == a + b[..|b| - 1];
      RunAppend(d, a, b[..|b| - 1]);
    }
  }

  /** One sweep after the other, at the given times. */
  function Sweeps(d: Db, config: Config, times: seq<int>): Db {
    if times == [] then d
    else Sweep(Sweeps(d, config, times[..|times| - 1]), config, times[|times| - 1])
  }

  function SweepsLog(config: Config, times: seq<int>): seq<Statement> {
    if times == [] then []
    else SweepsLog(config, times[..|times| - 1]) + SweepLog(config, times[|times| - 1])
  }

  lemma {:induction false} SweepsRun(d: Db, config: Config, times: seq<int>)
    ensures Sweeps(d, config, times) == Run(d, SweepsLog(config, times))
    ensures forall t | t in times, s | s in SweepLog(config, t) :: s in SweepsLog(config, times)
    ensures forall s | s in SweepsLog(config, times) :: exists t | t in times :: s in SweepLog(config, t)
  {
    if times != [] {
      var front, last := times[..|times| - 1], times[|times| - 1];
      SweepsRun(d, config, front);
      RunAppend(d, SweepsLog(config, front), SweepLog(config, last));
      assert times == front + [last];
    }
  }

  /** Sweeping again and again is sweeping once, at the latest time. */
  lemma SweepsAreOneSweep(d: Db, config: Config, times: seq<int>, last: int)
    requires last in times && forall t | t in times :: t <= last
    ensures Sweeps(d, config, times) == Sweep(d, config, last)
  {
    SweepsRun(d, config, times);
    var log := SweepsLog(config, times);
    forall s | s in log ensures NoLaterThan(config, s, last) {
      var t :| t in times && s in SweepLog(config, t);
      SweepLogIsNoLater(config, t, last);
    }
    Absorption(d, config, log, last);
  }

  /** A second sweep at the same time removes nothing. */
  lemma SweepIsIdempotent(d: Db, config: Config, now: int)
    ensures Sweep(Sweep(d, config, now), config, now) == Sweep(d, config, now)
  {
    var times := [now, now];
    assert times[..1] == [now] && [now][..0] == [];
    SweepsAreOneSweep(d, config, times, now);
    assert Sweeps(d, config, [now]) == Sweep(d, config, now);
  }

  // ------------------------------------------------------- the sweep in place

  /** How many rows the statement's own `where` accepts. */
  function Matched(d: Db, table: Table, cutoff: int): nat {
    match table
    case Sessions => |Before(d.sessions, cutoff)|
    case Verifications => |Before(d.verifications, cutoff)|
    case AccessTokens => |DeadAccess(d.accessTokens, cutoff)|
    case RefreshTokens => |DeadRefresh(d.refreshTokens, cutoff)|
    case ClientAssertions => |Before(d.clientAssertions, cutoff)|
    case PendingAuthorizations => |Before(d.pendingAuthorizations, cutoff)|
    case DeviceCodes => |Before(d.deviceCodes, cutoff)|
    case RateLimits => |Before(d.rateLimits, cutoff)|
    case SigningKeys => |KeysBefore(d.signingKeys, cutoff)|
    case AuditEvents => |Before(d.auditEvents, cutoff)|
  }

  function Due(d: Db, config: Config, table: Table, now: int): nat {
    Matched(d, table, Cutoff(config, table, now))
  }

  /** How many rows of each table are old when the sweep starts. */
  function DeadCounts(d: Db, config: Config, now: int): Counts {
    Counts(Due(d, config, Sessions, now),
           Due(d, config, Verifications, now),
           Due(d, config, AccessTokens, now),
           Due(d, config, RefreshTokens, now),
           Due(d, config, ClientAssertions, now),
           Due(d, config, PendingAuthorizations, now),
           Due(d, config, DeviceCodes, now),
           Due(d, config, RateLimits, now),
           Due(d, config, SigningKeys, now),
           Due(d, config, AuditEvents, now))
  }

  lemma DetachKeepsDead(d: Db, gone: set<Id>, cutoff: int)
    ensures DeadAccess(DetachAccess(d.accessTokens, gone), cutoff) == DeadAccess(d.accessTokens, cutoff)
    ensures DeadRefresh(DetachRefresh(d.refreshTokens, gone), cutoff) == DeadRefresh(d.refreshTokens, cutoff)
  {
  }

  lemma RunStep(d: Db, log: seq<Statement>, i: nat)
    requires i < |log|
    ensures Run(d, log[..i + 1]) == Delete(Run(d, log[..i]), log[i].table, log[i].cutoff)
  {
    assert log[..i + 1][..i] == log[..i];
  }

  /** The ten tables, emptied in place. */
  class Tables {
    var rows: Db

    constructor (d: Db)
      ensures rows == d
    {
      rows := d;
    }

    /** One delete statement, and the number of rows its own `where` accepts; the
        foreign keys do the rest and report nothing. */
    method DeleteFrom(table: Table, cutoff: int) returns (removed: nat)
      modifies this
      ensures rows == Delete(old(rows), table, cutoff)
      ensures removed == Matched(old(rows), table, cutoff)
    {
      match table {
        case Sessions =>
          var gone := Before(rows.sessions, cutoff);
          rows := rows.(sessions := rows.sessions - gone);
          rows := rows.(accessTokens := DetachAccess(rows.accessTokens, gone));
          rows := rows.(refreshTokens := DetachRefresh(rows.refreshTokens, gone));
          removed := |gone|;
        case AccessTokens =>
          var gone := DeadAccess(rows.accessTokens, cutoff);
          rows := rows.(accessTokens := rows.accessTokens - gone);
          removed := |gone|;
        case RefreshTokens =>
          var gone := DeadRefresh(rows.refreshTokens, cutoff);
          rows := rows.(refreshTokens := rows.refreshTokens - gone);
          rows := rows.(accessTokens := rows.accessTokens - ChildrenOf(rows.accessTokens, gone));
          removed := |gone|;
        case SigningKeys =>
          var gone := KeysBefore(rows.signingKeys, cutoff);
          rows := rows.(signingKeys := rows.signingKeys - gone);
          removed := |gone|;
        case Verifications =>
          var gone := Before(rows.verifications, cutoff);
          rows := rows.(verifications := rows.verifications - gone);
          removed := |gone|;
        case ClientAssertions =>
          var gone := Before(rows.clientAssertions, cutoff);
          rows := rows.(clientAssertions := rows.clientAssertions - gone);
          removed := |gone|;
        case PendingAuthorizations =>
          var gone := Before(rows.pendingAuthorizations, cutoff);
          rows := rows.(pendingAuthorizations := rows.pendingAuthorizations - gone);
          removed := |gone|;
        case DeviceCodes =>
          var gone := Before(rows.deviceCodes, cutoff);
          rows := rows.(deviceCodes := rows.deviceCodes - gone);
          removed := |gone|;
        case RateLimits =>
          var gone := Before(rows.rateLimits, cutoff);
          rows := rows.(rateLimits := rows.rateLimits - gone);
          removed := |gone|;
        case AuditEvents =>
          var gone := Before(rows.auditEvents, cutoff);
          rows := rows.(auditEvents := rows.auditEvents - gone);
          removed := |gone|;
      }
    }

    /** The statement at position `i` of a sweep that began with the rows `before`. */
    method Issue(table: Table, cutoff: int, ghost before: Db, ghost config: Config, ghost now: int, ghost i: nat)
        returns (removed: nat)
      requires i < 10 && table == TableAt(i) && cutoff == Cutoff(config, table, now)
      requires rows == Run(before, SweepLog(config, now)[..i])
      modifies this
      ensures rows == Run(before, SweepLog(config, now)[..i + 1])
      ensures removed == Due(before, config, table, now)
    {
      PrefixUntouched(config, now, i);
      MatchedUntouched(before, SweepLog(config, now)[..i], table, cutoff);
      removed := DeleteFrom(table, cutoff);
      RunStep(before, SweepLog(config, now), i);
    }

    /** Sessions, verifications and both kinds of token, counted into `counts`. */
    method SweepCredentials(config: Config, now: int) returns (counts: Counts)
      modifies this
      ensures rows == Run(old(rows), SweepLog(config, now)[..4])
      ensures counts == Counts(Due(old(rows), config, Sessions, now), Due(old(rows), config, Verifications, now),
                               Due(old(rows), config, AccessTokens, now), Due(old(rows), config, RefreshTokens, now),
                               0, 0, 0, 0, 0, 0)
    {
      ghost var before := rows;
      SweepEnds(before, config, now);
      var tokenCutoff := Minus(now, TOKEN_GRACE_DAYS * 86_400);
      counts := Counts(0, 0, 0, 0, 0, 0, 0, 0, 0, 0);
      var n := Issue(Sessions, now, before, config, now, 0);
      counts := counts.(sessions := n);
      n := Issue(Verifications, now, before, config, now, 1);
      counts := counts.(verifications := n);
      n := Issue(AccessTokens, tokenCutoff, before, config, now, 2);
      counts := counts.(accessTokens := n);
      n := Issue(RefreshTokens, tokenCutoff, before, config, now, 3);
      counts := counts.(refreshTokens := n);
    }

    /** Assertions, pending requests and device codes, counted on top of `counted`. */
    method SweepRequests(config: Config, now: int, counted: Counts, ghost before: Db) returns (counts: Counts)
      requires rows == Run(before, SweepLog(config, now)[..4])
      modifies this
      ensures rows == Run(before, SweepLog(config, now)[..7])
      ensures counts == counted.(clientAssertions := Due(before, config, ClientAssertions, now),
                                 pendingAuthorizations := Due(before, config, PendingAuthorizations, now),
                                 deviceCodes := Due(before, config, DeviceCodes, now))
    {
      counts := counted;
      var n := Issue(ClientAssertions, now, before, config, now, 4);
      counts := counts.(clientAssertions := n);
      n := Issue(PendingAuthorizations, now, before, config, now, 5);
      counts := counts.(pendingAuthorizations := n);
      n := Issue(DeviceCodes, now, before, config, now, 6);
      counts := counts.(deviceCodes := n);
    }

    /** Limits, signing keys and audit events, counted on top of `counted`. */
    method SweepRecords(config: Config, now: int, counted: Counts, ghost before: Db) returns (counts: Counts)
      requires rows == Run(before, SweepLog(config, now)[..7])
      modifies this
      ensures rows == Run(before, SweepLog(config, now)[..10])
      ensures counts == counted.(rateLimits := Due(before, config, RateLimits, now),
                                 signingKeys := Due(before, config, SigningKeys, now),
                                 auditEvents := Due(before, config, AuditEvents, now))
    {
      counts := counted;
      var rateLimitCutoff := Minus(now, RATE_LIMIT_STALE_HOURS * 3600);
      var n := Issue(RateLimits, rateLimitCutoff, before, config, now, 7);
      counts := counts.(rateLimits := n);
      var keyCutoff := Minus(now, config.jwksGracePeriodSeconds);
      n := Issue(SigningKeys, keyCutoff, before, config, now, 8);
      counts := counts.(signingKeys := n);
      var auditCutoff := Minus(now, config.retentionDays * 86_400);
      n := Issue(AuditEvents, auditCutoff, before, config, now, 9);
      counts := counts.(auditEvents := n);
    }

    /** Deletes everything that can no longer do anything, table by table. */
    method RunSweep(config: Config, now: int) returns (counts: Counts)
      modifies this
      ensures rows == Sweep(old(rows), config, now)
      ensures counts == DeadCounts(old(rows), config, now)
    {
      ghost var before := rows;
      SweepEnds(before, config, now);
      counts := SweepCredentials(config, now);
      counts := SweepRequests(config, now, counts, before);
      counts := SweepRecords(config, now, counts, before);
    }
  }

  lemma SweepEnds(d: Db, config: Config, now: int)
    ensures Run(d, SweepLog(config, now)[..0]) == d
    ensures Run(d, SweepLog(config, now)[..10]) == Sweep(d, config, now)
  {
    assert SweepLog(config, now)[..10] == SweepLog(config, now);
  }

  lemma PrefixUntouched(config: Config, now: int, i: nat)
    requires i < 10
    ensures Untouched(SweepLog(config, now)[..i], TableAt(i))
  {
  }

  /** No statement of the log changes which rows of `table` are old. */
  predicate Untouched(log: seq<Statement>, table: Table) {
    forall s | s in log :: s.table != table && !(s.table == RefreshTokens && table == AccessTokens)
  }

  lemma MatchedOther(d: Db, s: Statement, table: Table, cutoff: int)
    requires Untouched([s], table)
    ensures Matched(Delete(d, s.table, s.cutoff), table, cutoff) == Matched(d, table, cutoff)
  {
    assert s in [s];
    var e := Delete(d, s.table, s.cutoff);
    if table == AccessTokens || table == RefreshTokens {
      TokensOther(d, s, table, cutoff);
    } else {
      PlainOther(d, s, table);
      SameRows(d, e, table, cutoff);
    }
  }

  lemma TokensOther(d: Db, s: Statement, table: Table, cutoff: int)
    requires table == AccessTokens || table == RefreshTokens
    requires s.table != table && !(s.table == RefreshTokens && table == AccessTokens)
    ensures Matched(Delete(d, s.table, s.cutoff), table, cutoff) == Matched(d, table, cutoff)
  {
    if s.table == Sessions {
      DetachKeepsDead(d, Before(d.sessions, s.cutoff), cutoff);
    }
  }

  /** The rows of a table without foreign keys are the same. */
  predicate SamePlain(d: Db, e: Db, table: Table) {
    match table
    case Sessions => d.sessions == e.sessions
    case Verifications => d.verifications == e.verifications
    case ClientAssertions => d.clientAssertions == e.clientAssertions
    case PendingAuthorizations => d.pendingAuthorizations == e.pendingAuthorizations
    case DeviceCodes => d.deviceCodes == e.deviceCodes
    case RateLimits => d.rateLimits == e.rateLimits
    case SigningKeys => d.signingKeys == e.signingKeys
    case AuditEvents => d.auditEvents == e.auditEvents
    case _ => false
  }

  lemma PlainOther(d: Db, s: Statement, table: Table)
    requires table != AccessTokens && table != RefreshTokens && s.table != table
    ensures SamePlain(d, Delete(d, s.table, s.cutoff), table)
  {
  }

  lemma SameRows(d: Db, e: Db, table: Table, cutoff: int)
    requires SamePlain(d, e, table)
    ensures Matched(e, table, cutoff) == Matched(d, table, cutoff)
  {
  }

  lemma {:induction false} MatchedUntouched(d: Db, log: seq<Statement>, table: Table, cutoff: int)
    requires Untouched(log, table)
    ensures Matched(Run(d, log), table, cutoff) == Matched(d, table, cutoff)
  {
    if log != [] {
      var front, last := log[..|log| - 1], log[|log| - 1];
      MatchedUntouched(d, front, table, cutoff);
      MatchedOther(Run(d, front), last, table, cutoff);
    }
  }
}
