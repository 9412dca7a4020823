/** Who owns the database handles while the runtime is being built, and who closes them,
    with a fault at any step: `buildRuntime` and the shutdown it returns, after
    `apps/web/src/server/runtime.ts`. */
module RuntimeHandles {
  import opened Text

  /** `admin.database`. */
  datatype ConsoleMode = Disabled | ReadOnly | ReadWrite

  /** The step that throws; the last three of the first line are `createDb` calls made
      before the `try`. */
  datatype Fault =
    | NoFault | LoadConfig | OpenDatabase | OpenLocking | OpenConsole | OpenConsoleDirect
    | Migrate | MakeMailer | MakeAudit | MakeAdminContext | MakeAuth | LookForSecurityTxt | RunStartup
    | OpenCleanupLocking | StartJob

  /** What the built runtime's `shutdown` will close. */
  datatype Runtime = Runtime(database: nat, consoleDb: Option<nat>, consoleDirectDb: Option<nat>, cleanupLocking: nat)

  datatype Outcome = Built(runtime: Runtime) | Failed

  function Members(handle: Option<nat>): set<nat> {
    if handle.Some? then {handle.value} else {}
  }

  function HandlesOf(r: Runtime): set<nat> {
    {r.database, r.cleanupLocking} + Members(r.consoleDb) + Members(r.consoleDirectDb)
  }

  /** No handle serves twice. */
  predicate Distinct(r: Runtime) {
    && r.database != r.cleanupLocking
    && r.database !in Members(r.consoleDb) + Members(r.consoleDirectDb)
    && r.cleanupLocking !in Members(r.consoleDb) + Members(r.consoleDirectDb)
    && Members(r.consoleDb) !! Members(r.consoleDirectDb)
  }

  /** Whether the step is reached in this configuration, and so throws. */
  predicate Strikes(mode: ConsoleMode, fault: Fault) {
    match fault
    case NoFault => false
    case OpenConsole => mode != Disabled
    case OpenConsoleDirect => mode == ReadWrite
    case _ => true
  }

  /** The steps inside the `try`. */
  predicate ThrowsInTry(fault: Fault) {
    match fault
    case NoFault | LoadConfig | OpenDatabase | OpenLocking | OpenConsole | OpenConsoleDirect => false
    case _ => true
  }

  /** The steps that throw where nobody holds on to what is already open: the later
      `createDb` calls in front of the `try`, and the start of the cleanup job. */
  predicate Leaks(mode: ConsoleMode, fault: Fault) {
    Strikes(mode, fault) && (fault.OpenLocking? || fault.OpenConsole? || fault.OpenConsoleDirect? || fault.StartJob?)
  }

  class Handles {
    var open: set<nat>
    var next: nat

    ghost predicate Valid()
      reads this
    {
      forall h | h in open :: h < next
    }

    constructor ()
      ensures Valid() && open == {}
    {
      open, next := {}, 0;
    }

    method CreateDb() returns (handle: nat)
      requires Valid()
      modifies this
      ensures Valid() && handle == old(next) && next == old(next) + 1
      ensures handle !in old(open) && open == old(open) + {handle}
    {
      handle := next;
      open := open + {handle};
      next := next + 1;
    }

    method Close(handle: nat)
      requires Valid()
      modifies this
      ensures Valid() && next == old(next) && open == old(open) - {handle}
    {
      open := open - {handle};
    }

    method CloseIfAny(handle: Option<nat>)
      requires Valid()
      modifies this
      ensures Valid() && next == old(next) && open == old(open) - Members(handle)
    {
      if handle.Some? {
        Close(handle.value);
      }
    }

    /** The body of the `try`: the new handle of the cleanup job if it gets that far. */
    method TryBody(fault: Fault) returns (cleanupLocking: Option<nat>, threw: bool)
      requires Valid()
      modifies this
      ensures Valid() && next >= old(next)
      ensures threw <==> ThrowsInTry(fault)
      ensures open == old(open) + Members(cleanupLocking)
      ensures cleanupLocking.Some? <==> !threw || fault.StartJob?
      ensures cleanupLocking.Some? ==> cleanupLocking.value >= old(next)
    {
      cleanupLocking := None;
      if fault.Migrate? { return None, true; }
      if fault.MakeMailer? { return None, true; }
      if fault.MakeAudit? { return None, true; }
      if fault.MakeAdminContext? { return None, true; }
      if fault.MakeAuth? { return None, true; }
      if fault.LookForSecurityTxt? { return None, true; }
      if fault.RunStartup? { return None, true; }
      if fault.OpenCleanupLocking? { return None, true; }
      var handle := CreateDb();
      cleanupLocking := Some(handle);
      threw := fault.StartJob?;
    }

    /** The console handles, before the `try`. */
    method OpenConsoles(mode: ConsoleMode, fault: Fault)
        returns (consoleDb: Option<nat>, consoleDirectDb: Option<nat>, threw: bool)
      requires Valid()
      modifies this
      ensures Valid() && next >= old(next)
      ensures threw <==> Strikes(mode, fault) && (fault.OpenConsole? || fault.OpenConsoleDirect?)
      ensures open == old(open) + Members(consoleDb) + Members(consoleDirectDb)
      ensures consoleDb.Some? ==> old(next) <= consoleDb.value < next
      ensures consoleDirectDb.Some? ==> old(next) <= consoleDirectDb.value < next
      ensures consoleDb.Some? && consoleDirectDb.Some? ==> consoleDb != consoleDirectDb
      ensures !threw ==> (consoleDb.Some? <==> mode != Disabled) && (consoleDirectDb.Some? <==> mode == ReadWrite)
    {
      consoleDb, consoleDirectDb := None, None;
      if mode != Disabled {
        if fault.OpenConsole? {
          return None, None, true;
        }
        var handle := CreateDb();
        consoleDb := Some(handle);
      }
      if mode == ReadWrite {
        if fault.OpenConsoleDirect? {
          return consoleDb, None, true;
        }
        var handle := CreateDb();
        consoleDirectDb := Some(handle);
      }
      threw := false;
    }

    /** The `catch`: everything opened before the `try` except `locking`. */
    method CloseAfterFailure(database: nat, consoleDb: Option<nat>, consoleDirectDb: Option<nat>)
      requires Valid()
      modifies this
      ensures Valid() && open == old(open) - {database} - Members(consoleDb) - Members(consoleDirectDb)
    {
      Close(database);
      CloseIfAny(consoleDb);
      CloseIfAny(consoleDirectDb);
    }

    /** The `try` with its `catch` and `finally`: on failure everything opened before is
        closed, and `locking` either way; what the body itself opened stays open. */
    method TryCatchFinally(
        fault: Fault, database: nat, locking: nat, consoleDb: Option<nat>, consoleDirectDb: Option<nat>)
        returns (outcome: Outcome, ghost late: Option<nat>)
      requires Valid()
      modifies this
      ensures Valid()
      ensures outcome.Failed? <==> ThrowsInTry(fault)
      ensures late.Some? <==> outcome.Built? || fault.StartJob?
      ensures late.Some? ==> late.value >= old(next)
      ensures outcome.Failed? ==>
                open == old(open) + Members(late) - {database, locking} - Members(consoleDb) - Members(consoleDirectDb)
      ensures outcome.Built? ==>
                && open == old(open) + Members(late) - {locking}
                && outcome.runtime == Runtime(database, consoleDb, consoleDirectDb, late.value)
    {
      var cleanupLocking, threw := TryBody(fault);
      late := cleanupLocking;
      if threw {
        CloseAfterFailure(database, consoleDb, consoleDirectDb);
        outcome := Failed;
      } else {
        outcome := Built(Runtime(database, consoleDb, consoleDirectDb, cleanupLocking.value));
      }
      Close(locking);
    }

    /** Open, build, and on failure close. */
    method BuildRuntime(mode: ConsoleMode, fault: Fault) returns (outcome: Outcome)
      requires Valid()
      modifies this
      ensures Valid()
      ensures outcome.Failed? <==> Strikes(mode, fault)
      ensures outcome.Failed? ==> old(open) <= open && (open == old(open) <==> !Leaks(mode, fault))
      ensures outcome.Built? ==>
                && open == old(open) + HandlesOf(outcome.runtime)
                && HandlesOf(outcome.runtime) !! old(open)
                && (outcome.runtime.consoleDb.Some? <==> mode != Disabled)
                && (outcome.runtime.consoleDirectDb.Some? <==> mode == ReadWrite)
                && Distinct(outcome.runtime)
    {
      if fault.LoadConfig? || fault.OpenDatabase? {
        return Failed;
      }
      ghost var before := open;
      var database := CreateDb();
      if fault.OpenLocking? {
        return Failed;
      }
      var locking := CreateDb();
      var consoleDb, consoleDirectDb, threw := OpenConsoles(mode, fault);
      if threw {
        return Failed;
      }
      ghost var late;
      outcome, late := TryCatchFinally(fault, database, locking, consoleDb, consoleDirectDb);
      if outcome.Failed? {
        assert open == before + Members(late);
      } else {
        assert open == before + HandlesOf(outcome.runtime);
      }
    }

    /** The `shutdown` of a built runtime. */
    method Shutdown(runtime: Runtime)
      requires Valid()
      modifies this
      ensures Valid() && open == old(open) - HandlesOf(runtime)
    {
      Close(runtime.cleanupLocking);
      CloseIfAny(runtime.consoleDb);
      CloseIfAny(runtime.consoleDirectDb);
      Close(runtime.database);
    }

    /** Build and shut down: whatever the fault, nothing stays open that was not open
        before, unless the fault is one of the leaking steps. */
    method BuildAndShutdown(mode: ConsoleMode, fault: Fault)
      requires Valid()
      modifies this
      ensures Valid() && (open == old(open) <==> !Leaks(mode, fault))
    {
      var outcome := BuildRuntime(mode, fault);
      if outcome.Built? {
        Shutdown(outcome.runtime);
      }
    }
  }
}

/** The memoised runtime: one start-up at a time, none cached once it has failed. */
module RuntimeMemo {
  import opened Text

  /** How a start-up ended. */
  datatype Ending = Succeeded(build: nat) | FailedWith(message: string)

  datatype State = State(
    pending: Option<nat>, lastLoggedFailure: Option<string>,
    building: set<nat>, started: nat, failures: nat, dropped: nat,
    endings: seq<Ending>, lines: seq<string>)

  /** `Clear` is either of the two places that set `pending` to `undefined` on the way to
      closing a runtime. */
  datatype Event =
    | Call
    | Succeed(build: nat)
    | Fail(build: nat, message: string)
    | Clear

  predicate Enabled(s: State, e: Event) {
    match e
    case Succeed(build) => build in s.building
    case Fail(build, _) => build in s.building
    case _ => true
  }

  function Step(s: State, e: Event): State
    requires Enabled(s, e)
  {
    match e
    case Call =>
      if s.pending.Some? then s
      else s.(pending := Some(s.started), building := s.building + {s.started}, started := s.started + 1)
    case Succeed(build) =>
      s.(building := s.building - {build}, lastLoggedFailure := None, endings := s.endings + [Succeeded(build)])
    case Fail(build, message) =>
      s.(building := s.building - {build}, pending := None, failures := s.failures + 1,
         endings := s.endings + [FailedWith(message)],
         lastLoggedFailure := Some(message),
         lines := if s.lastLoggedFailure == Some(message) then s.lines else s.lines + [message])
    case Clear =>
      s.(pending := None, dropped := s.dropped + (if s.pending.Some? then 1 else 0))
  }

  const INITIAL: State := State(None, None, {}, 0, 0, 0, [], [])

  /** The module's variables, and the start-ups under way. */
  class Memo {
    var pending: Option<nat>
    var lastLoggedFailure: Option<string>
    var building: set<nat>
    var started: nat
    var failures: nat
    var dropped: nat
    var endings: seq<Ending>
    var lines: seq<string>

    ghost function Abstract(): State
      reads this
    {
      State(pending, lastLoggedFailure, building, started, failures, dropped, endings, lines)
    }

    constructor ()
      ensures Abstract() == INITIAL && SingleFlight(Abstract()) && LogIsFaithful(Abstract())
    {
      pending, lastLoggedFailure, building, started, failures, dropped := None, None, {}, 0, 0, 0;
      endings, lines := [], [];
    }

    /** The promise every concurrent caller shares. */
    method GetRuntime() returns (promise: nat)
      requires SingleFlight(Abstract())
      modifies this
      ensures Abstract() == Step(old(Abstract()), Call) && SingleFlight(Abstract())
      ensures pending == Some(promise) && (old(pending).Some? ==> pending == old(pending))
    {
      StepSingleFlight(Abstract(), Call);
      if pending.None? {
        pending := Some(started);
        building := building + {started};
        started := started + 1;
      }
      promise := pending.value;
    }

    method BuildSucceeded(build: nat)
      requires SingleFlight(Abstract()) && LogIsFaithful(Abstract()) && build in building
      modifies this
      ensures Abstract() == Step(old(Abstract()), Succeed(build))
      ensures SingleFlight(Abstract()) && LogIsFaithful(Abstract())
    {
      StepSingleFlight(Abstract(), Succeed(build));
      StepLogIsFaithful(Abstract(), Succeed(build));
      lastLoggedFailure := None;
      building := building - {build};
      endings := endings + [Succeeded(build)];
    }

    method LogStartupFailure(message: string)
      modifies this`lastLoggedFailure, this`lines
      ensures lastLoggedFailure == Some(message)
      ensures lines == if old(lastLoggedFailure) == Some(message) then old(lines) else old(lines) + [message]
    {
      if lastLoggedFailure == Some(message) {
        return;
      }
      lastLoggedFailure := Some(message);
      lines := lines + [message];
    }

    method BuildFailed(build: nat, message: string)
      requires SingleFlight(Abstract()) && LogIsFaithful(Abstract()) && build in building
      modifies this
      ensures Abstract() == Step(old(Abstract()), Fail(build, message))
      ensures pending == None && build !in building && failures == old(failures) + 1
      ensures SingleFlight(Abstract()) && LogIsFaithful(Abstract())
    {
      StepSingleFlight(Abstract(), Fail(build, message));
      StepLogIsFaithful(Abstract(), Fail(build, message));
      pending := None;
      LogStartupFailure(message);
      building := building - {build};
      failures := failures + 1;
      endings := endings + [FailedWith(message)];
    }
  }

  // ---------------------------------------------------------------- invariants

  /** Start-ups never overlap, the one under way is the one that callers hold, and every
      start-up has failed, been dropped, or is held. */
  ghost predicate SingleFlight(s: State) {
    && (forall b | b in s.building :: s.pending == Some(b) && b < s.started)
    && s.started == s.failures + s.dropped + (if s.pending.Some? then 1 else 0)
  }

  /** The failure a list of endings closes with, if it does. */
  function LastFailure(endings: seq<Ending>): Option<string> {
    if endings == [] then None
    else match endings[|endings| - 1]
      case FailedWith(message) => Some(message)
      case Succeeded(_) => None
  }

  /** A failure is logged exactly when it does not repeat the ending right before it. */
  function Announced(endings: seq<Ending>): seq<string> {
    if endings == [] then []
    else
      var before := endings[..|endings| - 1];
      var now := LastFailure(endings);
      Announced(before) + (if now.Some? && now != LastFailure(before) then [now.value] else [])
  }

  ghost predicate LogIsFaithful(s: State) {
    s.lines == Announced(s.endings) && s.lastLoggedFailure == LastFailure(s.endings)
  }

  lemma {:induction false} AnnouncedNext(endings: seq<Ending>, e: Ending)
    ensures LastFailure(endings + [e]) == if e.FailedWith? then Some(e.message) else None
    ensures Announced(endings + [e]) == Announced(endings)
      + (if e.FailedWith? && LastFailure(endings) != Some(e.message) then [e.message] else [])
  {
    assert (endings + [e])[..|endings|] == endings;
  }

  lemma {:induction false} StepLogIsFaithful(s: State, e: Event)
    requires LogIsFaithful(s) && Enabled(s, e)
    ensures LogIsFaithful(Step(s, e))
  {
    match e
    case Succeed(build) =>
      AnnouncedNext(s.endings, Succeeded(build));
      assert Announced(s.endings) + [] == Announced(s.endings);
    case Fail(_, message) =>
      AnnouncedNext(s.endings, FailedWith(message));
    case _ =>
  }

  /** A runtime is cleared only while no start-up is under way. */
  predicate Quiet(s: State, e: Event) {
    e.Clear? ==> s.building == {}
  }

  lemma StepSingleFlight(s: State, e: Event)
    requires SingleFlight(s) && Enabled(s, e) && Quiet(s, e)
    ensures SingleFlight(Step(s, e))
  {
  }

  /** Clearing is safe exactly while nothing is being built: otherwise the next call starts
      a second start-up beside the first. */
  lemma ClearGuardIsExact(s: State)
    requires SingleFlight(s)
    ensures SingleFlight(Step(Step(s, Clear), Call)) <==> s.building == {}
    ensures s.building != {} ==> |Step(Step(s, Clear), Call).building| == |s.building| + 1
  {
    var t := Step(Step(s, Clear), Call);
    if s.building != {} {
      var b :| b in s.building;
      assert s.pending == Some(b);
      assert t.pending == Some(s.started) && b in t.building && s.started in t.building;
    }
  }

  ghost predicate IsRun(s: State, events: seq<Event>)
    decreases |events|
  {
    events == [] || (Enabled(s, events[0]) && IsRun(Step(s, events[0]), events[1..]))
  }

  ghost function After(s: State, events: seq<Event>): State
    requires IsRun(s, events)
    decreases |events|
  {
    if events == [] then s else After(Step(s, events[0]), events[1..])
  }

  // ------------------------------------------------------------------ every run

  /** Start-ups are numbered as they begin, and each has ended or is under way. */
  ghost predicate Accounted(s: State) {
    (forall b | b in s.building :: b < s.started) && s.started == |s.endings| + |s.building|
  }

  /** How many endings are failures. */
  function FailuresIn(endings: seq<Ending>): nat {
    if endings == [] then 0
    else FailuresIn(endings[..|endings| - 1]) + (if endings[|endings| - 1].FailedWith? then 1 else 0)
  }

  lemma {:induction false} FailuresNext(endings: seq<Ending>, e: Ending)
    ensures FailuresIn(endings + [e]) == FailuresIn(endings) + (if e.FailedWith? then 1 else 0)
  {
    assert (endings + [e])[..|endings|] == endings;
  }

  /** The promise handed out is that of a start-up under way or of one that succeeded, and the
      failures counted are those that happened. */
  ghost predicate HoldsNoFailure(s: State) {
    && (s.pending.Some? ==> s.pending.value in s.building || Succeeded(s.pending.value) in s.endings)
    && s.failures == FailuresIn(s.endings)
  }

  lemma StepHoldsNoFailure(s: State, e: Event)
    requires HoldsNoFailure(s) && Enabled(s, e)
    ensures HoldsNoFailure(Step(s, e))
  {
    var t := Step(s, e);
    match e
    case Succeed(build) =>
      FailuresNext(s.endings, Succeeded(build));
      assert t.endings[|s.endings|] == Succeeded(build);
      assert forall x | x in s.endings :: x in t.endings;
    case Fail(_, message) => FailuresNext(s.endings, FailedWith(message));
    case _ =>
  }

  /** After a failure the next call begins a new start-up and hands out its promise. */
  lemma CallAfterFailureStartsAnew(s: State, build: nat, message: string)
    requires Accounted(s) && build in s.building
    ensures var t := Step(Step(s, Fail(build, message)), Call);
            && t.pending == Some(s.started) && s.started in t.building && t.started == s.started + 1
  {
  }

  /** Calls after a success are handed the runtime that was built. */
  lemma CallAfterSuccessShares(s: State, build: nat)
    requires s.pending == Some(build) && build in s.building
    ensures var t := Step(s, Succeed(build)); Step(t, Call) == t && t.pending == Some(build)
  {
  }

  lemma StepAccounted(s: State, e: Event)
    requires Accounted(s) && Enabled(s, e)
    ensures Accounted(Step(s, e))
  {
  }

  /** In every run, whenever it clears, each start-up is accounted for, and the log has each
      failure that does not repeat the ending before it. */
  lemma {:induction false} RunsAreAccounted(s: State, events: seq<Event>)
    requires Accounted(s) && HoldsNoFailure(s) && LogIsFaithful(s) && IsRun(s, events)
    ensures Accounted(After(s, events)) && HoldsNoFailure(After(s, events)) && LogIsFaithful(After(s, events))
    decreases |events|
  {
    if events != [] {
      StepAccounted(s, events[0]);
      StepHoldsNoFailure(s, events[0]);
      StepLogIsFaithful(s, events[0]);
      RunsAreAccounted(Step(s, events[0]), events[1..]);
    }
  }

  /** At no moment are two start-ups under way. */
  ghost predicate NeverOverlaps(s: State, events: seq<Event>)
    requires IsRun(s, events)
    decreases |events|
  {
    |s.building| <= 1 && (events == [] || NeverOverlaps(Step(s, events[0]), events[1..]))
  }

  /** A call that finds no promise while the start-up behind a dropped one is still under way. */
  predicate IsLateCall(s: State, e: Event) {
    e.Call? && s.pending.None? && s.building != {}
  }

  ghost predicate NoLateCall(s: State, events: seq<Event>)
    requires IsRun(s, events)
    decreases |events|
  {
    events == [] || (!IsLateCall(s, events[0]) && NoLateCall(Step(s, events[0]), events[1..]))
  }

  lemma StepOverlapsIff(s: State, e: Event)
    requires Accounted(s) && |s.building| <= 1 && Enabled(s, e)
    ensures |Step(s, e).building| <= 1 <==> !IsLateCall(s, e)
  {
    if e.Call? && s.pending.None? {
      assert s.started !in s.building;
      assert |s.building + {s.started}| == |s.building| + 1;
    }
  }

  /** Start-ups never overlap in a run if and only if no call comes late. */
  lemma {:induction false} NeverOverlapsIffNoLateCall(s: State, events: seq<Event>)
    requires Accounted(s) && |s.building| <= 1 && IsRun(s, events)
    ensures NeverOverlaps(s, events) <==> NoLateCall(s, events)
    decreases |events|
  {
    if events != [] {
      var t := Step(s, events[0]);
      StepOverlapsIff(s, events[0]);
      if IsLateCall(s, events[0]) {
        assert !NeverOverlaps(t, events[1..]);
      } else {
        StepAccounted(s, events[0]);
        NeverOverlapsIffNoLateCall(t, events[1..]);
      }
    }
  }

  // ------------------------------------------- runs that keep the promise they hold

  /** The run clears only between start-ups. */
  ghost predicate IsQuiet(s: State, events: seq<Event>)
    requires IsRun(s, events)
    decreases |events|
  {
    events == [] || (Quiet(s, events[0]) && IsQuiet(Step(s, events[0]), events[1..]))
  }

  /** Every state on the way has a single flight: the start-up under way, if any, is the one
      whose promise is held. */
  ghost predicate FliesSingly(s: State, events: seq<Event>)
    requires IsRun(s, events)
    decreases |events|
  {
    SingleFlight(s) && (events == [] || FliesSingly(Step(s, events[0]), events[1..]))
  }

  /** The promise held is that of the start-up under way throughout, if and only if the run
      never clears during a start-up. */
  lemma {:induction false} FliesSinglyIffQuiet(s: State, events: seq<Event>)
    requires SingleFlight(s) && IsRun(s, events)
    ensures FliesSingly(s, events) <==> IsQuiet(s, events)
    decreases |events|
  {
    if events != [] {
      if Quiet(s, events[0]) {
        StepSingleFlight(s, events[0]);
        FliesSinglyIffQuiet(Step(s, events[0]), events[1..]);
      } else {
        ClearIsNotSingle(s);
      }
    }
  }

  lemma ClearIsNotSingle(s: State)
    requires SingleFlight(s) && s.building != {}
    ensures !SingleFlight(Step(s, Clear))
  {
    var b :| b in s.building;
    assert b in Step(s, Clear).building;
  }

  lemma {:induction false} QuietRunsEndSingly(s: State, events: seq<Event>)
    requires SingleFlight(s) && IsRun(s, events) && IsQuiet(s, events)
    ensures SingleFlight(After(s, events))
    decreases |events|
  {
    if events != [] {
      StepSingleFlight(s, events[0]);
      QuietRunsEndSingly(Step(s, events[0]), events[1..]);
    }
  }

  /** Calls and completions alone are quiet and drop nothing. */
  lemma {:induction false} NothingDropped(s: State, events: seq<Event>)
    requires IsRun(s, events) && forall e | e in events :: !e.Clear?
    ensures IsQuiet(s, events) && After(s, events).dropped == s.dropped
    decreases |events|
  {
    if events != [] {
      assert events[0] in events;
      NothingDropped(Step(s, events[0]), events[1..]);
    }
  }

  /** From the start, with calls and completions in any order: builds started are the failed
      ones and, if a promise is held, the one behind it. */
  lemma StartedIsFailedPlusHeld(events: seq<Event>)
    requires IsRun(INITIAL, events) && forall e | e in events :: !e.Clear?
    ensures var t := After(INITIAL, events);
            && t.started == FailuresIn(t.endings) + (if t.pending.Some? then 1 else 0)
            && forall a, b | a in t.building && b in t.building :: a == b
  {
    NothingDropped(INITIAL, events);
    QuietRunsEndSingly(INITIAL, events);
    RunsAreAccounted(INITIAL, events);
  }

  /** From the start, whatever is cleared and when. */
  lemma FromTheStart(events: seq<Event>)
    requires IsRun(INITIAL, events)
    ensures var t := After(INITIAL, events); Accounted(t) && HoldsNoFailure(t) && LogIsFaithful(t)
    ensures NeverOverlaps(INITIAL, events) <==> NoLateCall(INITIAL, events)
    ensures FliesSingly(INITIAL, events) <==> IsQuiet(INITIAL, events)
  {
    RunsAreAccounted(INITIAL, events);
    NeverOverlapsIffNoLateCall(INITIAL, events);
    FliesSinglyIffQuiet(INITIAL, events);
  }
}
