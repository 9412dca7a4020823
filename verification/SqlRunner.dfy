/** The run, cancel and complete protocol of the SQL runner component, after
    `packages/ui/src/components/sql-runner.tsx`. A run is two steps: up to the call of
    `onExecute`, and from the moment its promise settles. */
module SqlRunner {
  import opened Text
  import opened SqlNoise

  datatype SQLResult = SQLResult(rows: seq<seq<string>>, rowCount: nat)
  datatype Mode = Read | ReadWrite
  datatype Status = Idle | Running | Success | Error | Blocked | Cancelled

  /** Where the call of `onExecute` that a run made has got to. */
  datatype Phase = InFlight | Delivered(result: SQLResult) | Failed(message: string)

  /** One run: what was executed, and what its closure and its controller hold. */
  datatype Run = Run(executed: string, mode: Mode, query: string, aborted: bool, phase: Phase)

  datatype State = State(
    query: string, mode: Mode, status: Status, result: Option<SQLResult>, error: Option<string>,
    lastExecutedQuery: string, controller: Option<nat>, runs: seq<Run>)

  datatype Event =
    | Start(selection: string)
    | Complete(id: nat, result: SQLResult)
    | Fail(id: nat, message: string)
    | Cancel
    | Edit(text: string)
    | SwitchMode(mode: Mode)

  const EMPTY_MESSAGE := "Enter a query to run."

  /** The selection, or else the whole query, without surrounding space. */
  function Chosen(selection: string, query: string): string {
    if Trim(selection) != "" then Trim(selection) else Trim(query)
  }

  predicate IsInFlight(s: State, id: nat) {
    id < |s.runs| && s.runs[id].phase.InFlight?
  }

  /** A settling run must be one that is still waiting. */
  predicate Enabled(s: State, e: Event) {
    match e
    case Complete(id, _) => IsInFlight(s, id)
    case Fail(id, _) => IsInFlight(s, id)
    case _ => true
  }

  function StepStart(s: State, selection: string): State {
    var trimmed := Chosen(selection, s.query);
    if trimmed == "" then s.(error := Some(EMPTY_MESSAGE), status := Error)
    else if s.mode == Read && IsWriteQuery(trimmed) then s.(error := None, status := Blocked)
    else s.(runs := s.runs + [Run(trimmed, s.mode, s.query, false, InFlight)],
            controller := Some(|s.runs|), error := None, status := Running)
  }

  function Settle(s: State, id: nat, phase: Phase): State
    requires id < |s.runs|
  {
    s.(runs := s.runs[id := s.runs[id].(phase := phase)],
       controller := if s.controller == Some(id) then None else s.controller)
  }

  function StepComplete(s: State, id: nat, result: SQLResult): State
    requires id < |s.runs|
  {
    var settled := Settle(s, id, Delivered(result));
    if s.runs[id].aborted then settled
    else settled.(result := Some(result), lastExecutedQuery := s.runs[id].query, status := Success)
  }

  function StepFail(s: State, id: nat, message: string): State
    requires id < |s.runs|
  {
    var settled := Settle(s, id, Failed(message));
    if s.runs[id].aborted then settled
    else settled.(error := Some(message), status := Error)
  }

  function StepCancel(s: State): State {
    var runs :=
      if s.controller.Some? && s.controller.value < |s.runs|
      then s.runs[s.controller.value := s.runs[s.controller.value].(aborted := true)]
      else s.runs;
    s.(runs := runs, controller := None, status := Cancelled)
  }

  function Rested(s: State): Status {
    if s.result.Some? then Success else Idle
  }

  function StepEdit(s: State, text: string): State {
    var edited := s.(query := text);
    if s.status == Error || s.status == Blocked || s.status == Cancelled
    then edited.(status := Rested(s), error := None) else edited
  }

  function StepMode(s: State, mode: Mode): State {
    var switched := s.(mode := mode);
    if s.status == Blocked then switched.(status := Rested(s)) else switched
  }

  function Step(s: State, e: Event): State
    requires Enabled(s, e)
  {
    match e
    case Start(selection) => StepStart(s, selection)
    case Complete(id, result) => StepComplete(s, id, result)
    case Fail(id, message) => StepFail(s, id, message)
    case Cancel => StepCancel(s)
    case Edit(text) => StepEdit(s, text)
    case SwitchMode(mode) => StepMode(s, mode)
  }

  function Initial(query: string, mode: Mode): State {
    State(query, mode, Idle, None, None, "", None, [])
  }

  /** The component: its state variables and refs, updated in place. */
  class Component {
    var value: string
    var safetyMode: Mode
    var status: Status
    var result: Option<SQLResult>
    var error: Option<string>
    var lastExecutedQuery: string
    var controllerRef: Option<nat>
    var runs: seq<Run>

    ghost function Abstract(): State
      reads this
    {
      State(value, safetyMode, status, result, error, lastExecutedQuery, controllerRef, runs)
    }

    ghost predicate Valid()
      reads this
    {
      Coherent(Abstract())
    }

    constructor (defaultValue: string, defaultMode: Mode)
      ensures Abstract() == Initial(defaultValue, defaultMode) && Valid()
    {
      value, safetyMode, status := defaultValue, defaultMode, Idle;
      result, error, lastExecutedQuery := None, None, "";
      controllerRef, runs := None, [];
    }

    method SetQuery(next: string)
      requires Valid()
      modifies this
      ensures Abstract() == Step(old(Abstract()), Edit(next)) && Valid()
      ensures value == next && safetyMode == old(safetyMode) && runs == old(runs)
    {
      StepCoherent(Abstract(), Edit(next));
      value := next;
      if status == Error || status == Blocked || status == Cancelled {
        status := if result.Some? then Success else Idle;
        error := None;
      }
    }

    method SetMode(next: Mode)
      requires Valid()
      modifies this
      ensures Abstract() == Step(old(Abstract()), SwitchMode(next)) && Valid()
      ensures safetyMode == next && value == old(value) && runs == old(runs)
    {
      StepCoherent(Abstract(), SwitchMode(next));
      safetyMode := next;
      if status == Blocked {
        status := if result.Some? then Success else Idle;
      }
    }

    method CancelRun()
      requires Valid()
      modifies this
      ensures Abstract() == Step(old(Abstract()), Cancel) && Valid()
    {
      StepCoherent(Abstract(), Cancel);
      if controllerRef.Some? {
        var id := controllerRef.value;
        runs := runs[id := runs[id].(aborted := true)];
      }
      controllerRef := None;
      status := Cancelled;
    }

    /** `run` up to the call of `onExecute`; the id names its controller. */
    method BeginRun(selection: string) returns (started: Option<nat>)
      requires Valid()
      modifies this
      ensures Abstract() == Step(old(Abstract()), Start(selection)) && Valid()
      ensures started.Some? ==> IsInFlight(Abstract(), started.value) && !runs[started.value].aborted
    {
      StepCoherent(Abstract(), Start(selection));
      var trimmed := Trim(selection);
      if trimmed == "" {
        trimmed := Trim(value);
      }
      if trimmed == "" {
        error := Some(EMPTY_MESSAGE);
        status := Error;
        return None;
      }
      if safetyMode == Read && IsWriteQuery(trimmed) {
        error := None;
        status := Blocked;
        return None;
      }
      var controller := |runs|;
      runs := runs + [Run(trimmed, safetyMode, value, false, InFlight)];
      controllerRef := Some(controller);
      error := None;
      status := Running;
      started := Some(controller);
    }

    /** The rest of `run` once `onExecute` has answered. */
    method FinishRun(controller: nat, next: SQLResult)
      requires Valid() && IsInFlight(Abstract(), controller)
      modifies this
      ensures Abstract() == Step(old(Abstract()), Complete(controller, next)) && Valid()
    {
      StepCoherent(Abstract(), Complete(controller, next));
      var aborted := runs[controller].aborted;
      if !aborted {
        result := Some(next);
        lastExecutedQuery := runs[controller].query;
        status := Success;
      }
      runs := runs[controller := runs[controller].(phase := Delivered(next))];
      if controllerRef == Some(controller) {
        controllerRef := None;
      }
    }

    /** The rest of `run` once `onExecute` has thrown. */
    method FailRun(controller: nat, message: string)
      requires Valid() && IsInFlight(Abstract(), controller)
      modifies this
      ensures Abstract() == Step(old(Abstract()), Fail(controller, message)) && Valid()
    {
      StepCoherent(Abstract(), Fail(controller, message));
      if !runs[controller].aborted {
        error := Some(message);
        status := Error;
      }
      runs := runs[controller := runs[controller].(phase := Failed(message))];
      if controllerRef == Some(controller) {
        controllerRef := None;
      }
    }
  }

  // -------------------------------------------------- invariants of every run

  /** The result and the query on display come from the same run, which was never cancelled. */
  ghost predicate ShownFromOneRun(s: State) {
    s.result.Some? ==>
      exists id :: 0 <= id < |s.runs| && !s.runs[id].aborted
                   && s.runs[id].phase == Delivered(s.result.value)
                   && s.runs[id].query == s.lastExecutedQuery
  }

  /** What a run in read mode sent off was never flagged as a write, nor blank. */
  ghost predicate ReadModeIsSafe(s: State) {
    forall id | 0 <= id < |s.runs| ::
      s.runs[id].executed != "" && (s.runs[id].mode == Read ==> !IsWriteQuery(s.runs[id].executed))
  }

  /** The current controller is that of a run still waiting. */
  ghost predicate ControllerIsLive(s: State) {
    s.controller.Some? ==> IsInFlight(s, s.controller.value) && !s.runs[s.controller.value].aborted
  }

  /** What holds however starts overlap. */
  ghost predicate Coherent(s: State) {
    && ControllerIsLive(s)
    && ShownFromOneRun(s)
    && ReadModeIsSafe(s)
  }

  lemma StepController(s: State, e: Event)
    requires ControllerIsLive(s) && Enabled(s, e)
    ensures ControllerIsLive(Step(s, e))
  {
  }

  lemma StepShown(s: State, e: Event)
    requires ControllerIsLive(s) && ShownFromOneRun(s) && Enabled(s, e)
    ensures ShownFromOneRun(Step(s, e))
  {
    var t := Step(s, e);
    if s.result.Some? {
      var id :| 0 <= id < |s.runs| && !s.runs[id].aborted
                && s.runs[id].phase == Delivered(s.result.value) && s.runs[id].query == s.lastExecutedQuery;
      if t.result == s.result && t.lastExecutedQuery == s.lastExecutedQuery {
        assert t.runs[id] == s.runs[id];
      }
    }
    if e.Complete? && !s.runs[e.id].aborted {
      assert t.runs[e.id].phase == Delivered(e.result);
    }
  }

  lemma StepReadMode(s: State, e: Event)
    requires ReadModeIsSafe(s) && Enabled(s, e)
    ensures ReadModeIsSafe(Step(s, e))
  {
    var t := Step(s, e);
    forall id | 0 <= id < |t.runs|
      ensures t.runs[id].executed != "" && (t.runs[id].mode == Read ==> !IsWriteQuery(t.runs[id].executed))
    {
      if id < |s.runs| {
        assert t.runs[id].executed == s.runs[id].executed && t.runs[id].mode == s.runs[id].mode;
      }
    }
  }

  lemma StepCoherent(s: State, e: Event)
    requires Coherent(s) && Enabled(s, e)
    ensures Coherent(Step(s, e))
  {
    StepController(s, e);
    StepShown(s, e);
    StepReadMode(s, e);
  }

  ghost predicate IsRun(s: State, events: seq<Event>)
    decreases |events|
  {
    events == [] || (Enabled(s, events[0]) && IsRun(Step(s, events[0]), events[1..]))
  }

  ghost function After(s: State, events: seq<Event>): State
    requires IsRun(s, events)
    decreases |events|
  {
    if events == [] then s else After(Step(s, events[0]), events[1..])
  }

  /** Every run of the component, with starts overlapping as they may. */
  lemma {:induction false} RunsStayCoherent(s: State, events: seq<Event>)
    requires Coherent(s) && IsRun(s, events)
    ensures Coherent(After(s, events))
    ensures After(s, events).mode == LastMode(events, s.mode) && After(s, events).query == LastText(events, s.query)
    decreases |events|
  {
    RequestsAreSent(s, events);
    if events != [] {
      StepCoherent(s, events[0]);
      RunsStayCoherent(Step(s, events[0]), events[1..]);
    }
  }

  /** The part of the state a user can see, or the next run depends on. */
  function Visible(s: State): (string, Mode, Status, Option<SQLResult>, Option<string>, string, Option<nat>) {
    (s.query, s.mode, s.status, s.result, s.error, s.lastExecutedQuery, s.controller)
  }

  /** An aborted run that settles late changes nothing. */
  lemma AbortedRunIsSilent(s: State, e: Event)
    requires Coherent(s) && Enabled(s, e)
    requires e.Complete? || e.Fail?
    requires s.runs[e.id].aborted
    ensures Visible(Step(s, e)) == Visible(s)
  {
  }

  // -------------------------------------------------------------- guarded runs

  /** `running` means a controller is set, and that one is the only run in flight
      that has not been aborted. */
  ghost predicate SingleFlight(s: State) {
    && (s.status == Running <==> s.controller.Some?)
    && forall id | 0 <= id < |s.runs| :: s.runs[id].phase.InFlight? && !s.runs[id].aborted ==> s.controller == Some(id)
  }

  /** How the buttons and keys guard their handlers. */
  predicate Guarded(s: State, e: Event) {
    && (e.Start? ==> s.status != Running)
    && (e.Cancel? ==> s.status == Running)
  }

  /** Starting keeps a single flight exactly when nothing is running. */
  lemma StartGuardIsExact(s: State, selection: string)
    requires Coherent(s) && SingleFlight(s)
    ensures SingleFlight(Step(s, Start(selection))) <==> s.status != Running
  {
    var t := Step(s, Start(selection));
    if s.status == Running && |t.runs| > |s.runs| {
      var id := s.controller.value;
      assert t.runs[id] == s.runs[id];
      assert t.controller == Some(|s.runs|);
    }
  }

  /** The run is waiting and has not been aborted. */
  predicate IsLive(s: State, id: nat) {
    IsInFlight(s, id) && !s.runs[id].aborted
  }

  ghost predicate OneLive(s: State) {
    forall a: nat, b: nat | IsLive(s, a) && IsLive(s, b) :: a == b
  }

  /** The start gets as far as calling `onExecute`. */
  predicate Begins(s: State, selection: string) {
    var chosen := Chosen(selection, s.query);
    chosen != "" && !(s.mode == Read && IsWriteQuery(chosen))
  }

  /** A start puts a second run in the air exactly when one is there and the chosen text is
      neither blank nor blocked. */
  lemma SecondFlightIff(s: State, selection: string)
    requires Coherent(s) && SingleFlight(s)
    ensures OneLive(Step(s, Start(selection))) <==> s.status != Running || !Begins(s, selection)
  {
    var t := Step(s, Start(selection));
    forall id: nat | id < |s.runs| ensures IsLive(t, id) == IsLive(s, id) {
      assert t.runs[id] == s.runs[id];
    }
    if s.status == Running && Begins(s, selection) {
      assert IsLive(t, s.controller.value) && IsLive(t, |s.runs|);
    }
  }

  lemma StepSingleFlight(s: State, e: Event)
    requires Coherent(s) && SingleFlight(s) && Enabled(s, e) && Guarded(s, e)
    ensures SingleFlight(Step(s, e))
  {
    if e.Start? {
      StartGuardIsExact(s, e.selection);
    }
  }

  /** What the panel says agrees with what it holds: an error text exactly under `error`, a
      result under `success` and none under `idle`, and `blocked` only in read mode. */
  ghost predicate PanelAgrees(s: State) {
    && (s.error.Some? <==> s.status == Error)
    && (s.status == Success ==> s.result.Some?)
    && (s.status == Idle ==> s.result.None?)
    && (s.status == Blocked ==> s.mode == Read)
  }

  lemma StepPanelAgrees(s: State, e: Event)
    requires ControllerIsLive(s) && SingleFlight(s) && PanelAgrees(s) && Enabled(s, e) && Guarded(s, e)
    ensures PanelAgrees(Step(s, e))
  {
    if (e.Complete? || e.Fail?) && !s.runs[e.id].aborted {
      assert s.controller == Some(e.id) && s.status == Running;
    }
  }

  /** Typing leaves no refusal, error or cancellation on display, and restores what was there. */
  lemma EditClears(s: State, text: string)
    requires PanelAgrees(s)
    ensures var t := Step(s, Edit(text));
            && t.query == text && t.error.None? && (t.status == Success || t.status == Idle || t.status == Running)
            && t.result == s.result && t.controller == s.controller && t.runs == s.runs
  {
  }

  ghost predicate IsGuardedRun(s: State, events: seq<Event>)
    decreases |events|
  {
    events == []
    || (Enabled(s, events[0]) && Guarded(s, events[0]) && IsGuardedRun(Step(s, events[0]), events[1..]))
  }

  lemma {:induction false} GuardedIsRun(s: State, events: seq<Event>)
    requires IsGuardedRun(s, events)
    ensures IsRun(s, events)
    decreases |events|
  {
    if events != [] {
      GuardedIsRun(Step(s, events[0]), events[1..]);
    }
  }

  lemma {:induction false} GuardedRunsKeepSingleFlight(s: State, events: seq<Event>)
    requires Coherent(s) && SingleFlight(s) && PanelAgrees(s) && IsGuardedRun(s, events)
    ensures IsRun(s, events)
    ensures Coherent(After(s, events)) && SingleFlight(After(s, events)) && PanelAgrees(After(s, events))
    decreases |events|
  {
    GuardedIsRun(s, events);
    if events != [] {
      StepCoherent(s, events[0]);
      StepSingleFlight(s, events[0]);
      StepPanelAgrees(s, events[0]);
      GuardedRunsKeepSingleFlight(Step(s, events[0]), events[1..]);
    }
  }

  /** From a fresh component, under the guards, for every run. */
  lemma FromTheStart(query: string, mode: Mode, events: seq<Event>)
    requires IsGuardedRun(Initial(query, mode), events)
    ensures IsRun(Initial(query, mode), events)
    ensures var s := After(Initial(query, mode), events);
            && Coherent(s) && SingleFlight(s) && PanelAgrees(s)
            && s.mode == LastMode(events, mode) && s.query == LastText(events, query)
            && RequestsOf(s.runs) == Sent(events, query, mode)
  {
    GuardedRunsKeepSingleFlight(Initial(query, mode), events);
    RequestsAreSent(Initial(query, mode), events);
  }

  /** Cancelling a guarded run leaves no run that could still report. */
  lemma CancelSilencesEverything(s: State, e: Event)
    requires Coherent(s) && SingleFlight(s) && s.status == Running
    requires (e.Complete? || e.Fail?) && Enabled(Step(s, Cancel), e)
    ensures Visible(Step(Step(s, Cancel), e)) == Visible(Step(s, Cancel))
  {
  }

  // ------------------------------------------------ what a run of events sends off

  /** The argument of the last switch, or else the mode at the start. */
  function LastMode(events: seq<Event>, mode: Mode): Mode {
    if events == [] then mode
    else match events[|events| - 1]
      case SwitchMode(next) => next
      case _ => LastMode(events[..|events| - 1], mode)
  }

  /** The text as last typed, or else the text at the start. */
  function LastText(events: seq<Event>, query: string): string {
    if events == [] then query
    else match events[|events| - 1]
      case Edit(text) => text
      case _ => LastText(events[..|events| - 1], query)
  }

  /** What `onExecute` is handed, and the text that stood in the editor. */
  datatype Request = Request(executed: string, mode: Mode, query: string)

  /** The requests that a list of events makes, said without any state: each start that is
      neither blank nor, in read mode, a write sends off the selection, or else the text. */
  function Sent(events: seq<Event>, query: string, mode: Mode): seq<Request> {
    if events == [] then []
    else
      var front, last := events[..|events| - 1], events[|events| - 1];
      var earlier := Sent(front, query, mode);
      if !last.Start? then earlier
      else
        var text, m := LastText(front, query), LastMode(front, mode);
        var chosen := if Trim(last.selection) != "" then Trim(last.selection) else Trim(text);
        if chosen == "" || (m == Read && IsWriteQuery(chosen)) then earlier
        else earlier + [Request(chosen, m, text)]
  }

  function RequestsOf(runs: seq<Run>): (r: seq<Request>)
    ensures |r| == |runs|
  {
    seq(|runs|, i requires 0 <= i < |runs| => Request(runs[i].executed, runs[i].mode, runs[i].query))
  }

  lemma {:induction false} AfterLast(s: State, events: seq<Event>)
    requires IsRun(s, events) && events != []
    ensures IsRun(s, events[..|events| - 1])
    ensures var before := After(s, events[..|events| - 1]);
            Enabled(before, events[|events| - 1]) && After(s, events) == Step(before, events[|events| - 1])
    decreases |events|
  {
    var front := events[..|events| - 1];
    if |events| > 1 {
      assert front[1..] == events[1..][..|events| - 2];
      AfterLast(Step(s, events[0]), events[1..]);
    }
  }

  lemma StepRequests(s: State, e: Event)
    requires Enabled(s, e)
    ensures var t := Step(s, e);
            && t.mode == (if e.SwitchMode? then e.mode else s.mode)
            && t.query == (if e.Edit? then e.text else s.query)
            && RequestsOf(t.runs) == RequestsOf(s.runs)
                 + (if e.Start? && Begins(s, e.selection)
                    then [Request(Chosen(e.selection, s.query), s.mode, s.query)] else [])
  {
    var t := Step(s, e);
    forall i | 0 <= i < |s.runs| ensures RequestsOf(t.runs)[i] == RequestsOf(s.runs)[i] {}
  }

  /** Every run of events: the mode is that of the last switch, the text the one last typed,
      and what was sent off is exactly what these two call for. */
  lemma {:induction false} RequestsAreSent(s: State, events: seq<Event>)
    requires IsRun(s, events)
    ensures var t := After(s, events);
            && t.mode == LastMode(events, s.mode) && t.query == LastText(events, s.query)
            && RequestsOf(t.runs) == RequestsOf(s.runs) + Sent(events, s.query, s.mode)
  {
    if events != [] {
      var front := events[..|events| - 1];
      AfterLast(s, events);
      RequestsAreSent(s, front);
      StepRequests(After(s, front), events[|events| - 1]);
    }
  }

  /** After a switch to read mode nothing flagged is sent off, until the next switch. */
  lemma {:induction false} NothingWritesInReadMode(query: string, mode: Mode, events: seq<Event>, later: seq<Event>)
    requires LastMode(events, mode) == Read && forall e | e in later :: !e.SwitchMode?
    ensures Sent(events, query, mode) <= Sent(events + later, query, mode)
    ensures forall i | |Sent(events, query, mode)| <= i < |Sent(events + later, query, mode)| ::
              !IsWriteQuery(Sent(events + later, query, mode)[i].executed)
    ensures LastMode(events + later, mode) == Read
    decreases |later|
  {
    if later == [] {
      assert events + later == events;
    } else {
      var fewer := later[..|later| - 1];
      assert (events + later)[..|events + later| - 1] == events + fewer;
      assert later[|later| - 1] in later && !later[|later| - 1].SwitchMode?;
      NothingWritesInReadMode(query, mode, events, fewer);
    }
  }

  // ---------------------------------------------------------- what the panel shows

  /** The result and the query beside it change with the completion of a run that was not
      cancelled, and become that run's; with nothing else. */
  lemma ResultComesFromCompletion(s: State, e: Event)
    requires Enabled(s, e)
    ensures var t := Step(s, e);
            if e.Complete? && !s.runs[e.id].aborted then
              t.result == Some(e.result) && t.lastExecutedQuery == s.runs[e.id].query && t.status == Success
            else t.result == s.result && t.lastExecutedQuery == s.lastExecutedQuery
  {
  }

  /** What is said about a failure, a blank query or a blocked one. */
  lemma TroubleIsShown(s: State, e: Event)
    requires Enabled(s, e)
    ensures var t := Step(s, e);
            && (e.Fail? && !s.runs[e.id].aborted ==> t.error == Some(e.message) && t.status == Error)
            && (e.Start? && Chosen(e.selection, s.query) == "" ==>
                  t.error == Some("Enter a query to run.") && t.status == Error && t.runs == s.runs)
            && (e.Start? && Chosen(e.selection, s.query) != "" && !Begins(s, e.selection) ==>
                  t.error == None && t.status == Blocked && t.runs == s.runs)
            && (e.Cancel? ==> t.status == Cancelled && t.controller == None)
  {
  }

  /** A run is aborted by a cancel while its controller is the current one, and by nothing
      else; it settles by its own answer alone. */
  lemma AbortsComeFromCancel(s: State, e: Event, id: nat)
    requires Coherent(s) && Enabled(s, e) && id < |s.runs|
    ensures var t := Step(s, e);
            && id < |t.runs|
            && (t.runs[id].aborted <==> s.runs[id].aborted || (e.Cancel? && s.controller == Some(id)))
            && t.runs[id].phase == (if e.Complete? && e.id == id then Delivered(e.result)
                                    else if e.Fail? && e.id == id then Failed(e.message) else s.runs[id].phase)
  {
  }
}
