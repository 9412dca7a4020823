/** Several instances sweeping one database under a try-lock, after
    `apps/web/src/server/cleanup.ts` and `apps/web/src/server/db/advisory-lock.ts`. */
module SweepFleet {
  import opened Text
  import opened Retention
  import opened RetentionSweep

  /** How far an instance has got with its sweep. */
  datatype Progress = Progress(now: int, issued: nat)

  datatype State = State(
    db: Db, lock: Option<nat>, sweeping: map<nat, Progress>,
    log: seq<Statement>, begun: seq<int>, finished: seq<int>)

  /** What the instances do, in any order. A waiting caller begins once the lock is free;
      a skipping one that finds it taken changes nothing. */
  datatype Event =
    | TryBegin(instance: nat, now: int)
    | Issue(instance: nat)
    | Finish(instance: nat)
    | Crash(instance: nat)

  predicate Enabled(s: State, e: Event) {
    match e
    case TryBegin(i, _) => i !in s.sweeping
    case Issue(i) => i in s.sweeping && s.sweeping[i].issued < 10
    case Finish(i) => i in s.sweeping && s.sweeping[i].issued == 10
    case Crash(i) => i in s.sweeping
  }

  function Released(s: State, instance: nat): State {
    s.(lock := None, sweeping := map i | i in s.sweeping && i != instance :: s.sweeping[i])
  }

  function Step(s: State, config: Config, e: Event): State
    requires Enabled(s, e)
  {
    match e
    case TryBegin(i, now) =>
      if s.lock.Some? then s
      else s.(lock := Some(i), sweeping := s.sweeping[i := Progress(now, 0)], begun := s.begun + [now])
    case Issue(i) =>
      var p := s.sweeping[i];
      var statement := SweepLog(config, p.now)[p.issued];
      s.(db := Delete(s.db, statement.table, statement.cutoff),
         log := s.log + [statement],
         sweeping := s.sweeping[i := p.(issued := p.issued + 1)])
    case Finish(i) => Released(s, i).(finished := s.finished + [s.sweeping[i].now])
    case Crash(i) => Released(s, i)
  }

  function Initial(d: Db): State {
    State(d, None, map[], [], [], [])
  }

  /** The lock's holder is the only one sweeping. */
  ghost predicate Exclusive(s: State) {
    s.sweeping.Keys == if s.lock.Some? then {s.lock.value} else {}
  }

  /** The database is what the statements so far made of it, each of them from a sweep that
      was begun, and every statement of a finished sweep among them. */
  ghost predicate Accounted(s: State, config: Config, d: Db) {
    && s.db == Run(d, s.log)
    && (forall st | st in s.log :: exists t | t in s.begun :: st in SweepLog(config, t))
    && (forall t | t in s.finished, st | st in SweepLog(config, t) :: st in s.log)
    && (forall t | t in s.finished :: t in s.begun)
    && (forall i | i in s.sweeping ::
          && s.sweeping[i].now in s.begun && s.sweeping[i].issued <= 10
          && forall k | 0 <= k < s.sweeping[i].issued :: SweepLog(config, s.sweeping[i].now)[k] in s.log)
  }

  lemma StepExclusive(s: State, config: Config, e: Event)
    requires Exclusive(s) && Enabled(s, e)
    ensures Exclusive(Step(s, config, e))
  {
  }

  lemma BeginAccounted(s: State, config: Config, d: Db, i: nat, now: int)
    requires Accounted(s, config, d) && i !in s.sweeping
    ensures Accounted(Step(s, config, TryBegin(i, now)), config, d)
  {
    var t := Step(s, config, TryBegin(i, now));
    forall st | st in t.log ensures exists u | u in t.begun :: st in SweepLog(config, u) {
      var u :| u in s.begun && st in SweepLog(config, u);
      assert u in t.begun;
    }
  }

  lemma IssueAccounted(s: State, config: Config, d: Db, i: nat)
    requires Accounted(s, config, d) && Enabled(s, Issue(i))
    ensures Accounted(Step(s, config, Issue(i)), config, d)
  {
    var t, p := Step(s, config, Issue(i)), s.sweeping[i];
    var st := SweepLog(config, p.now)[p.issued];
    assert t.log[..|t.log| - 1] == s.log;
    assert st in SweepLog(config, p.now) && p.now in t.begun;
    forall k | 0 <= k < p.issued + 1 ensures SweepLog(config, p.now)[k] in t.log {
      if k < p.issued {
        assert SweepLog(config, p.now)[k] in s.log;
      } else {
        assert t.log[|t.log| - 1] == st;
      }
    }
  }

  lemma FinishAccounted(s: State, config: Config, d: Db, i: nat)
    requires Accounted(s, config, d) && Enabled(s, Finish(i))
    ensures Accounted(Step(s, config, Finish(i)), config, d)
  {
    var t, p := Step(s, config, Finish(i)), s.sweeping[i];
    forall u | u in t.finished, st | st in SweepLog(config, u) ensures st in t.log {
      if u !in s.finished {
        assert u == p.now;
        var k :| 0 <= k < 10 && SweepLog(config, u)[k] == st;
      }
    }
  }

  lemma StepAccounted(s: State, config: Config, d: Db, e: Event)
    requires Accounted(s, config, d) && Enabled(s, e)
    ensures Accounted(Step(s, config, e), config, d)
  {
    match e
    case TryBegin(i, now) => BeginAccounted(s, config, d, i, now);
    case Issue(i) => IssueAccounted(s, config, d, i);
    case Finish(i) => FinishAccounted(s, config, d, i);
    case Crash(i) =>
  }

  ghost predicate IsRun(s: State, config: Config, events: seq<Event>)
    decreases |events|
  {
    events == [] || (Enabled(s, events[0]) && IsRun(Step(s, config, events[0]), config, events[1..]))
  }

  ghost function After(s: State, config: Config, events: seq<Event>): State
    requires IsRun(s, config, events)
    decreases |events|
  {
    if events == [] then s else After(Step(s, config, events[0]), config, events[1..])
  }

  lemma {:induction false} RunsStayAccounted(s: State, config: Config, d: Db, events: seq<Event>)
    requires Exclusive(s) && Accounted(s, config, d) && IsRun(s, config, events)
    ensures Exclusive(After(s, config, events)) && Accounted(After(s, config, events), config, d)
    decreases |events|
  {
    if events != [] {
      StepExclusive(s, config, events[0]);
      StepAccounted(s, config, d, events[0]);
      RunsStayAccounted(Step(s, config, events[0]), config, d, events[1..]);
    }
  }

  /** Whatever the instances did -- skipped, overlapped in time, crashed half-way -- once a
      sweep no earlier than any other has finished, the database is what that one sweep
      alone would have left. */
  lemma InterleavingIsIrrelevant(d: Db, config: Config, events: seq<Event>, time: int)
    requires IsRun(Initial(d), config, events)
    requires time in After(Initial(d), config, events).finished
    requires forall t | t in After(Initial(d), config, events).begun :: t <= time
    ensures After(Initial(d), config, events).db == Sweep(d, config, time)
  {
    RunsStayAccounted(Initial(d), config, d, events);
    var s := After(Initial(d), config, events);
    forall st | st in s.log ensures NoLaterThan(config, st, time) {
      var t :| t in s.begun && st in SweepLog(config, t);
      SweepLogIsNoLater(config, t, time);
    }
    Absorption(d, config, s.log, time);
  }

  /** At every moment of every run, at most one instance is sweeping. */
  lemma AtMostOneSweeps(d: Db, config: Config, events: seq<Event>, i: nat, j: nat)
    requires IsRun(Initial(d), config, events)
    requires i in After(Initial(d), config, events).sweeping && j in After(Initial(d), config, events).sweeping
    ensures i == j
  {
    RunsStayAccounted(Initial(d), config, d, events);
  }

  /** Who finishes or crashes lets go of the lock, and whoever tries next gets it; while it is
      held, a try changes nothing. */
  lemma LockChangesHands(s: State, config: Config, e: Event, next: nat, now: int)
    requires Exclusive(s) && Enabled(s, e) && (e.Finish? || e.Crash?)
    ensures var t := Step(s, config, e);
            && t.lock == None && t.sweeping == map[] && Enabled(t, TryBegin(next, now))
            && Step(t, config, TryBegin(next, now)).sweeping == map[next := Progress(now, 0)]
            && (Enabled(s, TryBegin(next, now)) ==> Step(s, config, TryBegin(next, now)) == s)
  {
  }

  function FinishesIn(events: seq<Event>): nat {
    if events == [] then 0 else (if events[0].Finish? then 1 else 0) + FinishesIn(events[1..])
  }

  function CrashesIn(events: seq<Event>): nat {
    if events == [] then 0 else (if events[0].Crash? then 1 else 0) + CrashesIn(events[1..])
  }

  /** Nothing gets lost: every sweep begun has finished, has crashed or is the one going on,
      and the finished ones are as many as were brought to their end. */
  lemma {:induction false} SweepsAreCounted(s: State, config: Config, events: seq<Event>)
    requires Exclusive(s) && IsRun(s, config, events)
    ensures var t := After(s, config, events);
            && |t.finished| == |s.finished| + FinishesIn(events)
            && |t.begun| - (if t.lock.Some? then 1 else 0)
            == |s.begun| - (if s.lock.Some? then 1 else 0) + FinishesIn(events) + CrashesIn(events)
    decreases |events|
  {
    if events != [] {
      StepExclusive(s, config, events[0]);
      SweepsAreCounted(Step(s, config, events[0]), config, events[1..]);
    }
  }
}
