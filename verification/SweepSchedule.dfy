/** The self-rescheduling cleanup job, after `startCleanupJob` in
    `apps/web/src/server/cleanup.ts`. A tick is two steps: the timer firing, and the rest of
    it once the sweep has settled one way or the other. */
module SweepSchedule {
  import opened Text

  const CLEANUP_JITTER: real := 0.1

  /** `Math.round`: halves go up. */
  function Round(x: real): int {
    (x + 0.5).Floor
  }

  function Delay(intervalMs: nat, random: real): int {
    Round(intervalMs as real * (1.0 + (random * 2.0 - 1.0) * CLEANUP_JITTER))
  }

  /** Each delay is within a tenth of the interval, give or take the rounding. */
  lemma DelayBounds(intervalMs: nat, random: real)
    requires 0.0 <= random < 1.0
    ensures var off := Delay(intervalMs, random) as real - intervalMs as real;
            -(intervalMs as real / 10.0) - 0.5 <= off <= intervalMs as real / 10.0 + 0.5
  {
    var i := intervalMs as real;
    var drift := (random * 2.0 - 1.0) * CLEANUP_JITTER;
    assert -0.1 <= drift <= 0.1;
    assert i * (1.0 + drift) == i + i * drift;
    TimesAtMost(i, -0.1, drift);
    TimesAtMost(i, drift, 0.1);
  }

  lemma TimesAtMost(i: real, a: real, b: real)
    requires i >= 0.0 && a <= b
    ensures i * a <= i * b
  {
  }

  /** Each delay follows the random number from nine tenths of the interval up to eleven. */
  lemma DelayIsLinear(intervalMs: nat, random: real)
    ensures var i := intervalMs as real;
            -0.5 <= Delay(intervalMs, random) as real - (i * 0.9 + i * random * 0.2) <= 0.5
  {
    var i := intervalMs as real;
    assert (random * 2.0 - 1.0) * CLEANUP_JITTER == random * 0.2 - 0.1;
    assert i * (1.0 + (random * 0.2 - 0.1)) == i * 0.9 + i * random * 0.2;
  }

  /** A later draw is never a shorter delay, and the middle one is the interval itself. */
  lemma DelayGrows(intervalMs: nat, random: real, more: real)
    requires random <= more
    ensures Delay(intervalMs, random) <= Delay(intervalMs, more)
    ensures Delay(intervalMs, 0.5) == intervalMs
  {
    var i := intervalMs as real;
    var a, b := (random * 2.0 - 1.0) * CLEANUP_JITTER, (more * 2.0 - 1.0) * CLEANUP_JITTER;
    assert a <= b && (0.5 * 2.0 - 1.0) * CLEANUP_JITTER == 0.0;
    TimesAtMost(i, 1.0 + a, 1.0 + b);
  }

  /** `timer` is the job's variable, which keeps the handle of a timer that has fired;
      `armed` and `ticking` are what the event loop holds. */
  datatype State = State(
    timer: Option<nat>, stopped: bool, armed: Option<nat>, ticking: nat, started: nat, delays: seq<int>,
    lines: seq<Line>)

  datatype Line = Cleanup(total: nat) | CleanupFailed

  /** How the sweep of a tick ends, and which of the lines about it cannot be written. */
  datatype Outcome = Skipped | Swept(total: nat, unwritten: bool) | Threw

  /** What `try` and `catch` make of it: `mute` is whether the line about a failure throws. */
  function Logged(outcome: Outcome, mute: bool): seq<Line> {
    match outcome
    case Skipped => []
    case Swept(total, unwritten) =>
      if total == 0 then [] else if !unwritten then [Cleanup(total)] else if mute then [] else [CleanupFailed]
    case Threw => if mute then [] else [CleanupFailed]
  }

  /** The handler itself throws, and the tick ends there. */
  predicate Dies(outcome: Outcome, mute: bool) {
    mute && (outcome.Threw? || (outcome.Swept? && outcome.total > 0 && outcome.unwritten))
  }

  datatype Event =
    | Fire
    | Settle(outcome: Outcome, mute: bool, random: real)
    | Stop

  predicate Enabled(s: State, e: Event) {
    match e
    case Fire => s.armed.Some?
    case Settle(_, _, random) => s.ticking > 0 && 0.0 <= random < 1.0
    case Stop => true
  }

  function StepNext(s: State, intervalMs: nat, random: real): State {
    if s.stopped then s
    else
      var handle := |s.delays|;
      s.(timer := Some(handle), armed := Some(handle), delays := s.delays + [Delay(intervalMs, random)])
  }

  /** A tick ends in `next` whether the sweep ran, was skipped or failed, unless the report of
      the failure fails too. */
  function Step(s: State, intervalMs: nat, e: Event): State
    requires Enabled(s, e)
  {
    match e
    case Fire => s.(armed := None, ticking := s.ticking + 1, started := s.started + 1)
    case Settle(outcome, mute, random) =>
      var settled := s.(ticking := s.ticking - 1, lines := s.lines + Logged(outcome, mute));
      if Dies(outcome, mute) then settled else StepNext(settled, intervalMs, random)
    case Stop =>
      var armed := if s.timer.Some? && s.armed == s.timer then None else s.armed;
      s.(stopped := true, armed := armed, timer := None)
  }

  function Initial(intervalMs: nat, random: real): State {
    StepNext(State(None, false, None, 0, 0, [], []), intervalMs, random)
  }

  class CleanupJob {
    var timer: Option<nat>
    var stopped: bool
    var armed: Option<nat>
    var ticking: nat
    var started: nat
    var delays: seq<int>
    var lines: seq<Line>
    const intervalMs: nat

    ghost function Abstract(): State
      reads this
    {
      State(timer, stopped, armed, ticking, started, delays, lines)
    }

    constructor (intervalMinutes: nat, random: real)
      requires 0.0 <= random < 1.0
      ensures intervalMs == intervalMinutes * 60_000
      ensures Abstract() == Initial(intervalMs, random) && Orderly(Abstract()) && GoesOn(Abstract())
    {
      intervalMs := intervalMinutes * 60_000;
      timer, stopped, armed, ticking, started, delays, lines := None, false, None, 0, 0, [], [];
      new;
      Next(random);
    }

    method Next(random: real)
      requires 0.0 <= random < 1.0
      modifies this
      ensures Abstract() == StepNext(old(Abstract()), intervalMs, random)
    {
      if stopped {
        return;
      }
      var handle := |delays|;
      timer := Some(handle);
      armed := Some(handle);
      delays := delays + [Delay(intervalMs, random)];
    }

    /** The timer fires and a tick begins. */
    method TickBegins()
      requires Orderly(Abstract()) && armed.Some?
      modifies this
      ensures Abstract() == Step(old(Abstract()), intervalMs, Fire) && Orderly(Abstract())
    {
      StepOrderly(Abstract(), intervalMs, Fire);
      armed := None;
      ticking := ticking + 1;
      started := started + 1;
    }

    /** The line about a failure, which may throw in its turn. */
    method ReportFailure(mute: bool) returns (threw: bool)
      modifies `lines
      ensures threw == mute && lines == old(lines) + if mute then [] else [CleanupFailed]
    {
      if !mute {
        lines := lines + [CleanupFailed];
      }
      threw := mute;
    }

    /** The rest of a tick: the sweep's answer or its failure, the line about it, and `next`,
        which is reached exactly unless a failure cannot be reported. */
    method TickEnds(outcome: Outcome, mute: bool, random: real)
      requires Orderly(Abstract()) && ticking > 0 && 0.0 <= random < 1.0
      modifies this
      ensures Abstract() == Step(old(Abstract()), intervalMs, Settle(outcome, mute, random)) && Orderly(Abstract())
      ensures GoesOn(Abstract()) <==> !stopped && !Dies(outcome, mute)
      ensures outcome.Skipped? || (outcome.Swept? && outcome.total == 0) ==> lines == old(lines)
      ensures outcome.Swept? && outcome.total > 0 && !outcome.unwritten ==>
                lines == old(lines) + [Cleanup(outcome.total)]
      ensures outcome.Threw? || (outcome.Swept? && outcome.total > 0 && outcome.unwritten) ==>
                lines == old(lines) + (if mute then [] else [CleanupFailed])
    {
      StepOrderly(Abstract(), intervalMs, Settle(outcome, mute, random));
      ticking := ticking - 1;
      var threw := outcome.Threw?;
      if outcome.Swept? && outcome.total > 0 {
        threw := outcome.unwritten;
        if !threw {
          lines := lines + [Cleanup(outcome.total)];
        }
      }
      if threw {
        var again := ReportFailure(mute);
        if again {
          return;
        }
      }
      Next(random);
    }

    method StopSchedule()
      requires Orderly(Abstract())
      modifies this
      ensures Abstract() == Step(old(Abstract()), intervalMs, Stop) && Orderly(Abstract())
    {
      StepOrderly(Abstract(), intervalMs, Stop);
      stopped := true;
      if timer.Some? && armed == timer {
        armed := None;
      }
      timer := None;
    }
  }

  /** A timer is armed or one tick is running, but never both, and neither is left once
      nothing will come of it: after `stop` no timer is armed. */
  ghost predicate Orderly(s: State) {
    && s.ticking <= 1
    && (s.armed.Some? ==> s.ticking == 0 && s.timer == s.armed && !s.stopped)
  }

  /** The schedule goes on: it has not been stopped, and one of the two is there. */
  predicate GoesOn(s: State) {
    !s.stopped && (s.armed.Some? || s.ticking > 0)
  }

  predicate IsDeath(e: Event) {
    e.Settle? && Dies(e.outcome, e.mute)
  }

  lemma StepOrderly(s: State, intervalMs: nat, e: Event)
    requires Orderly(s) && Enabled(s, e)
    ensures Orderly(Step(s, intervalMs, e))
    ensures GoesOn(Step(s, intervalMs, e)) <==> GoesOn(s) && !e.Stop? && !IsDeath(e)
    ensures s.stopped ==> Step(s, intervalMs, e).stopped && Step(s, intervalMs, e).started == s.started
  {
  }

  ghost predicate IsRun(s: State, intervalMs: nat, events: seq<Event>)
    decreases |events|
  {
    events == [] || (Enabled(s, events[0]) && IsRun(Step(s, intervalMs, events[0]), intervalMs, events[1..]))
  }

  ghost function After(s: State, intervalMs: nat, events: seq<Event>): State
    requires IsRun(s, intervalMs, events)
    decreases |events|
  {
    if events == [] then s else After(Step(s, intervalMs, events[0]), intervalMs, events[1..])
  }

  predicate WithinJitter(intervalMs: nat, delay: int) {
    var off := delay as real - intervalMs as real;
    -(intervalMs as real / 10.0) - 0.5 <= off <= intervalMs as real / 10.0 + 0.5
  }

  lemma StepDelays(s: State, intervalMs: nat, e: Event)
    requires Enabled(s, e) && forall d | d in s.delays :: WithinJitter(intervalMs, d)
    ensures forall d | d in Step(s, intervalMs, e).delays :: WithinJitter(intervalMs, d)
  {
    if e.Settle? { DelayBounds(intervalMs, e.random); }
  }

  /** Every run: sweeps never overlap, nothing begins after `stop`, every delay is within the
      jitter, and the schedule goes on if and only if nobody stopped it and no failure went
      unreported. */
  lemma {:induction false} ScheduleInvariant(s: State, intervalMs: nat, events: seq<Event>)
    requires Orderly(s) && (forall d | d in s.delays :: WithinJitter(intervalMs, d))
    requires IsRun(s, intervalMs, events)
    ensures var t := After(s, intervalMs, events);
            && Orderly(t)
            && (forall d | d in t.delays :: WithinJitter(intervalMs, d))
            && (GoesOn(t) <==> GoesOn(s) && forall e | e in events :: !e.Stop? && !IsDeath(e))
            && (s.stopped ==> t.stopped && t.started == s.started)
    decreases |events|
  {
    if events != [] {
      StepOrderly(s, intervalMs, events[0]);
      StepDelays(s, intervalMs, events[0]);
      ScheduleInvariant(Step(s, intervalMs, events[0]), intervalMs, events[1..]);
      assert events == [events[0]] + events[1..];
    }
  }

  /** The delays that a run schedules: one for each tick that ended, up to the first stop. */
  function DelaysIn(events: seq<Event>, intervalMs: nat): seq<int> {
    if events == [] || events[0].Stop? then []
    else
      (if events[0].Settle? && !IsDeath(events[0]) then [Delay(intervalMs, events[0].random)] else [])
      + DelaysIn(events[1..], intervalMs)
  }

  function FiresIn(events: seq<Event>): nat {
    if events == [] then 0 else (if events[0].Fire? then 1 else 0) + FiresIn(events[1..])
  }

  function LinesIn(events: seq<Event>): seq<Line> {
    if events == [] then []
    else (if events[0].Settle? then Logged(events[0].outcome, events[0].mute) else []) + LinesIn(events[1..])
  }

  lemma StepSchedules(s: State, intervalMs: nat, e: Event)
    requires Enabled(s, e)
    ensures var t := Step(s, intervalMs, e);
            && t.stopped == (s.stopped || e.Stop?)
            && t.delays == s.delays
                 + if e.Settle? && !IsDeath(e) && !s.stopped then [Delay(intervalMs, e.random)] else []
  {
  }

  lemma StepWrites(s: State, intervalMs: nat, e: Event)
    requires Enabled(s, e)
    ensures var t := Step(s, intervalMs, e);
            && t.lines == s.lines + (if e.Settle? then Logged(e.outcome, e.mute) else [])
            && t.started == s.started + (if e.Fire? then 1 else 0)
  {
  }

  lemma Associate<T>(a: seq<T>, b: seq<T>, c: seq<T>)
    ensures (a + b) + c == a + (b + c)
  {
  }

  /** What a run leaves behind: a delay for every tick that ended before a stop, each with the
      random number drawn for it, a tick for every timer that fired, a line for every tick
      with something to tell. */
  lemma {:induction false} RunsAreRecorded(s: State, intervalMs: nat, events: seq<Event>)
    requires IsRun(s, intervalMs, events)
    ensures After(s, intervalMs, events).delays == s.delays + if s.stopped then [] else DelaysIn(events, intervalMs)
    ensures After(s, intervalMs, events).started == s.started + FiresIn(events)
    ensures After(s, intervalMs, events).lines == s.lines + LinesIn(events)
    decreases |events|
  {
    if events != [] {
      var e, rest := events[0], events[1..];
      RunsAreRecorded(Step(s, intervalMs, e), intervalMs, rest);
      StepSchedules(s, intervalMs, e);
      StepWrites(s, intervalMs, e);
      Associate(s.lines, if e.Settle? then Logged(e.outcome, e.mute) else [], LinesIn(rest));
      Associate(s.delays, Step(s, intervalMs, e).delays[|s.delays|..], DelaysIn(rest, intervalMs));
    }
  }

  /** Every tick was scheduled, and while nobody stops it every delay but the one being waited
      for has led to a tick. */
  lemma {:induction false} TicksFollowDelays(s: State, intervalMs: nat, events: seq<Event>)
    requires Orderly(s) && IsRun(s, intervalMs, events)
    requires !s.stopped ==> |s.delays| == s.started + (if s.armed.Some? then 1 else 0)
    requires s.started <= |s.delays| <= s.started + 1
    ensures var t := After(s, intervalMs, events);
            && t.started <= |t.delays| <= t.started + 1
            && (!t.stopped ==> |t.delays| == t.started + (if t.armed.Some? then 1 else 0))
    decreases |events|
  {
    if events != [] {
      StepOrderly(s, intervalMs, events[0]);
      TicksFollowDelays(Step(s, intervalMs, events[0]), intervalMs, events[1..]);
    }
  }

  /** A schedule that died does nothing more: it can only be stopped. */
  lemma DeadIsDead(s: State, e: Event)
    requires Orderly(s) && !s.stopped && !GoesOn(s) && Enabled(s, e)
    ensures e.Stop?
  {
  }

  /** Stopping again changes nothing, whatever ran in between. */
  lemma StopAgain(s: State, intervalMs: nat, events: seq<Event>)
    requires Orderly(s) && IsRun(Step(s, intervalMs, Stop), intervalMs, events)
    ensures var t := After(Step(s, intervalMs, Stop), intervalMs, events);
            Enabled(t, Stop) && Step(t, intervalMs, Stop) == t
  {
    StepOrderly(s, intervalMs, Stop);
    StoppedStays(Step(s, intervalMs, Stop), intervalMs, events);
  }

  lemma {:induction false} StoppedStays(s: State, intervalMs: nat, events: seq<Event>)
    requires s.stopped && s.armed.None? && s.timer.None? && IsRun(s, intervalMs, events)
    ensures var t := After(s, intervalMs, events); t.stopped && t.armed.None? && t.timer.None?
    decreases |events|
  {
    if events != [] {
      StoppedStays(Step(s, intervalMs, events[0]), intervalMs, events[1..]);
    }
  }

  /** The same from the first `next` on. */
  lemma FromTheStart(intervalMs: nat, random: real, events: seq<Event>)
    requires 0.0 <= random < 1.0 && IsRun(Initial(intervalMs, random), intervalMs, events)
    ensures var t := After(Initial(intervalMs, random), intervalMs, events);
            && Orderly(t) && (forall d | d in t.delays :: WithinJitter(intervalMs, d))
            && (GoesOn(t) <==> forall e | e in events :: !e.Stop? && !IsDeath(e))
            && t.delays == [Delay(intervalMs, random)] + DelaysIn(events, intervalMs)
            && t.started == FiresIn(events) && t.lines == LinesIn(events)
            && t.started <= |t.delays| <= t.started + 1
  {
    DelayBounds(intervalMs, random);
    ScheduleInvariant(Initial(intervalMs, random), intervalMs, events);
    RunsAreRecorded(Initial(intervalMs, random), intervalMs, events);
    TicksFollowDelays(Initial(intervalMs, random), intervalMs, events);
  }
}
