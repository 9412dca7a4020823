/** Signing keys over whole runs: creation, retirement, signing and sweeping, after
    `apps/web/src/server/cleanup.ts` and, for retirement, the rule of
    `apps/web/src/server/oidc/rotate-keys.ts` that an expiry is brought forward to a
    moment still to come. */
module KeyLife {
  import opened Text
  import opened Retention

  datatype Token = Token(key: Id, expiresAt: int)

  datatype State = State(clock: int, keys: map<Id, Option<int>>, tokens: set<Token>)

  datatype Event =
    | Wait(clock: int)
    | Publish(key: Id, expiresAt: Option<int>)
    | Retire(key: Id, at: int)
    | Sign(key: Id, lifetime: nat)
    | SweepKeys(now: int)

  function GraceMs(config: Config): nat {
    config.jwksGracePeriodSeconds * 1000
  }

  /** A key signs until it expires, and a token lives no longer than the grace period. A
      retirement brings an expiry forward, but not into the past. */
  predicate Enabled(s: State, config: Config, e: Event) {
    match e
    case Wait(clock) => s.clock <= clock
    case Publish(key, _) => key !in s.keys && forall t | t in s.tokens :: t.key != key
    case Retire(key, at) => key in s.keys && s.clock <= at && (s.keys[key].None? || at < s.keys[key].value)
    case Sign(key, lifetime) =>
      key in s.keys && (s.keys[key].None? || s.clock <= s.keys[key].value) && lifetime <= GraceMs(config)
    case SweepKeys(now) => now <= s.clock
  }

  function Step(s: State, config: Config, e: Event): State
    requires Enabled(s, config, e)
  {
    match e
    case Wait(clock) => s.(clock := clock)
    case Publish(key, expiresAt) => s.(keys := s.keys[key := expiresAt])
    case Retire(key, at) => s.(keys := s.keys[key := Some(at)])
    case Sign(key, lifetime) => s.(tokens := s.tokens + {Token(key, s.clock + lifetime)})
    case SweepKeys(now) => s.(keys := s.keys - KeysBefore(s.keys, Cutoff(config, SigningKeys, now)))
  }

  /** A token that has not expired finds its key, and will until it expires. */
  ghost predicate Verifiable(s: State, config: Config) {
    forall t | t in s.tokens ::
      && t.expiresAt <= s.clock + GraceMs(config)
      && (s.clock <= t.expiresAt ==>
            && t.key in s.keys
            && (s.keys[t.key].Some? ==> t.expiresAt <= s.keys[t.key].value + GraceMs(config)))
  }

  ghost predicate IsRun(s: State, config: Config, events: seq<Event>)
    decreases |events|
  {
    events == [] || (Enabled(s, config, events[0]) && IsRun(Step(s, config, events[0]), config, events[1..]))
  }

  ghost function After(s: State, config: Config, events: seq<Event>): State
    requires IsRun(s, config, events)
    decreases |events|
  {
    if events == [] then s else After(Step(s, config, events[0]), config, events[1..])
  }

  lemma StepVerifiable(s: State, config: Config, e: Event)
    requires Verifiable(s, config) && Enabled(s, config, e)
    ensures Verifiable(Step(s, config, e), config)
  {
  }

  /** In every run, a live token's key is still there to verify it. */
  lemma {:induction false} LiveTokensVerify(s: State, config: Config, events: seq<Event>)
    requires Verifiable(s, config) && IsRun(s, config, events)
    ensures Verifiable(After(s, config, events), config)
    decreases |events|
  {
    if events != [] {
      StepVerifiable(s, config, events[0]);
      LiveTokensVerify(Step(s, config, events[0]), config, events[1..]);
    }
  }

  lemma {:induction false} LiveKeyStays(s: State, config: Config, events: seq<Event>, key: Id)
    requires IsRun(s, config, events) && key in s.keys && s.keys[key].None?
    requires forall e | e in events :: !(e.Retire? && e.key == key)
    ensures key in After(s, config, events).keys && After(s, config, events).keys[key].None?
    decreases |events|
  {
    if events != [] {
      assert events[0] in events;
      LiveKeyStays(Step(s, config, events[0]), config, events[1..], key);
    }
  }

  // ----------------------------------------------------------- the run, by its events

  /** The clock in front of the `i`th event: as it was last set, or as it was at the start. */
  function ClockAt(clock: int, events: seq<Event>, i: nat): int
    requires i <= |events|
  {
    if i == 0 then clock
    else if events[i - 1].Wait? then events[i - 1].clock
    else ClockAt(clock, events, i - 1)
  }

  lemma {:induction false} ClockLater(clock: int, events: seq<Event>, i: nat)
    requires i < |events|
    ensures ClockAt(clock, events, i + 1) == ClockAt(ClockAt(clock, events, 1), events[1..], i)
  {
    if i > 0 {
      ClockLater(clock, events, i - 1);
    }
  }

  lemma {:induction false} ClockIsLastSet(s: State, config: Config, events: seq<Event>)
    requires IsRun(s, config, events)
    ensures After(s, config, events).clock == ClockAt(s.clock, events, |events|)
    decreases |events|
  {
    if events != [] {
      ClockIsLastSet(Step(s, config, events[0]), config, events[1..]);
      ClockLater(s.clock, events, |events| - 1);
      assert ClockAt(s.clock, events, 1) == Step(s, config, events[0]).clock;
    }
  }

  /** The expiry that the event gives the key. */
  function Given(e: Event, key: Id): Option<Option<int>> {
    match e
    case Publish(k, expiresAt) => if k == key then Some(expiresAt) else None
    case Retire(k, at) => if k == key then Some(Some(at)) else None
    case _ => None
  }

  /** A sweep more than the grace period after the expiry. */
  predicate Overdue(config: Config, e: Event, expiresAt: Option<int>) {
    e.SweepKeys? && expiresAt.Some? && expiresAt.value + config.jwksGracePeriodSeconds * 1000 < e.now
  }

  /** None of the events gives the key another expiry, and none sweeps it away. */
  ghost predicate Lasts(config: Config, events: seq<Event>, key: Id, expiresAt: Option<int>) {
    forall e | e in events :: Given(e, key).None? && !Overdue(config, e, expiresAt)
  }

  ghost predicate IsLastGiven(config: Config, events: seq<Event>, key: Id, expiresAt: Option<int>, i: int) {
    0 <= i < |events| && Given(events[i], key) == Some(expiresAt) && Lasts(config, events[i + 1..], key, expiresAt)
  }

  lemma StepKeys(s: State, config: Config, e: Event, key: Id)
    requires Enabled(s, config, e)
    ensures var keys := Step(s, config, e).keys;
            && (Given(e, key).Some? ==> key in keys && keys[key] == Given(e, key).value)
            && (Given(e, key).None? ==> (key in keys <==> key in s.keys && !Overdue(config, e, s.keys[key]))
                                        && (key in keys ==> keys[key] == s.keys[key]))
  {
  }

  /** Which keys there are after a run, and with which expiry: the ones given it by a
      publication or a retirement that no later one replaced and no sweep found overdue. */
  lemma {:induction false} KeysAreExact(
      s: State, config: Config, events: seq<Event>, key: Id, expiresAt: Option<int>)
    requires IsRun(s, config, events)
    ensures var keys := After(s, config, events).keys;
            (key in keys && keys[key] == expiresAt
             <==> || (key in s.keys && s.keys[key] == expiresAt && Lasts(config, events, key, expiresAt))
                  || exists i :: IsLastGiven(config, events, key, expiresAt, i))
    decreases |events|
  {
    if events != [] {
      var e, rest := events[0], events[1..];
      StepKeys(s, config, e, key);
      KeysAreExact(Step(s, config, e), config, rest, key, expiresAt);
      assert events == [e] + rest;
      assert Lasts(config, events, key, expiresAt)
        <==> Given(e, key).None? && !Overdue(config, e, expiresAt) && Lasts(config, rest, key, expiresAt);
      GivenLater(config, events, key, expiresAt);
    }
  }

  lemma GivenLater(config: Config, events: seq<Event>, key: Id, expiresAt: Option<int>)
    requires events != []
    ensures (exists i :: IsLastGiven(config, events, key, expiresAt, i))
       <==> || (Given(events[0], key) == Some(expiresAt) && Lasts(config, events[1..], key, expiresAt))
            || exists i :: IsLastGiven(config, events[1..], key, expiresAt, i)
  {
    var rest := events[1..];
    forall i | IsLastGiven(config, events, key, expiresAt, i)
      ensures i == 0 || IsLastGiven(config, rest, key, expiresAt, i - 1)
    {
      if i > 0 { assert rest[i - 1 + 1..] == events[i + 1..]; }
    }
    forall i | IsLastGiven(config, rest, key, expiresAt, i)
      ensures IsLastGiven(config, events, key, expiresAt, i + 1)
    {
      assert rest[i + 1..] == events[i + 1 + 1..];
    }
    assert Given(events[0], key) == Some(expiresAt) && Lasts(config, rest, key, expiresAt)
      <==> IsLastGiven(config, events, key, expiresAt, 0);
  }

  /** The `i`th event signs the token. */
  ghost predicate Signs(clock: int, events: seq<Event>, t: Token, i: int) {
    && 0 <= i < |events| && events[i].Sign? && events[i].key == t.key
    && t.expiresAt == ClockAt(clock, events, i) + events[i].lifetime
  }

  /** Which tokens there are after a run: the ones signed in it, besides those of the start. */
  lemma {:induction false} TokensAreExact(s: State, config: Config, events: seq<Event>, t: Token)
    requires IsRun(s, config, events)
    ensures t in After(s, config, events).tokens <==> t in s.tokens || exists i :: Signs(s.clock, events, t, i)
    decreases |events|
  {
    if events != [] {
      var next := Step(s, config, events[0]);
      TokensAreExact(next, config, events[1..], t);
      assert ClockAt(s.clock, events, 1) == next.clock;
      forall i | 0 <= i < |events| - 1
        ensures Signs(s.clock, events, t, i + 1) <==> Signs(next.clock, events[1..], t, i)
      {
        ClockLater(s.clock, events, i);
      }
      assert t in next.tokens <==> t in s.tokens || Signs(s.clock, events, t, 0);
      forall i | Signs(s.clock, events, t, i) && i > 0 ensures Signs(next.clock, events[1..], t, i - 1) {}
    }
  }

  /** From an empty store on, told by the events alone: while a signed token is live, some
      publication or retirement of its key is still in force. */
  lemma SignedTokensFindTheirKey(clock: int, config: Config, events: seq<Event>, t: Token, i: int)
    requires IsRun(State(clock, map[], {}), config, events) && Signs(clock, events, t, i)
    requires ClockAt(clock, events, |events|) <= t.expiresAt
    ensures exists expiresAt, j :: IsLastGiven(config, events, t.key, expiresAt, j)
  {
    var s := State(clock, map[], {});
    var after := After(s, config, events);
    LiveTokensVerify(s, config, events);
    TokensAreExact(s, config, events, t);
    ClockIsLastSet(s, config, events);
    KeysAreExact(s, config, events, t.key, after.keys[t.key]);
  }

  /** Deleting a key at its expiry instead would break a token signed just before: for any
      key and any grace period above zero there is a token that loses its key. */
  lemma ExpiryAloneWouldBreak(config: Config, key: Id, expiresAt: int, lifetime: nat)
    requires 0 < lifetime <= GraceMs(config)
    ensures var s := State(expiresAt, map[key := Some(expiresAt)], {});
            && Enabled(s, config, Sign(key, lifetime))
            && var t := Step(s, config, Sign(key, lifetime)).(clock := expiresAt + 1);
               && t.clock <= expiresAt + lifetime
               && KeysBefore(t.keys, t.clock) == {key}
               && KeysBefore(t.keys, Cutoff(config, SigningKeys, t.clock)) == {}
  {
  }
}
