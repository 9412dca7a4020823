# Identity provider: a verified model of its algorithms and protocols

This project models the parts of the identity provider whose behaviour is hard to see from
one function body, and proves what they promise. `dafny verify dfyconfig.toml` checks it all.

**Retention** (`Retention`, `RetentionSweep`, `RetentionAccounting`, `SweepFleet`, `KeyLife`,
`SweepSchedule`). The ten tables are maps of rows; a sweep is a method that deletes from them
in place, statement by statement, with the cascade from refresh to access tokens and the
sessions' `set null`. Any run of statements, from any sweeps in any interleaving, complete or
cut short, has a closed form (`Purge`) that depends only on the latest cutoff per table;
absorption, the accounting of cascaded rows and the safety of keys and tokens follow.
Several instances under the try-lock and the self-rescheduling job are transition systems.

**Addresses** (`GatewayRules`, `Digits`, `AddressSpelling`, `AddressDenotation`). Legal spellings
are a datatype after section 2.2 of RFC 4291, their digits worth what their place in an alphabet
and a power of the base say; the hand-written parser accepts exactly those, and the link-local
test is a range test on the 128-bit value they denote.

**Asynchronous state machines** (`SqlRunner`, `RuntimeHandles`, `RuntimeMemo`, `SignInChain`).
The SQL runner's run/cancel/complete protocol, the ownership of database handles while the
runtime is built with a fault at any step, the memoised start-up, and the hand-off of an
interrupted authorization from `/login` over `/two-factor` or `/change-password`.

**Transformations with a meaning to keep** (`Redaction`, `Logging`, `SqlNoise`, `SqlTokens`,
`SqlGuard`, `RedirectTemplate`, `OauthQuery`). Redaction as non-interference and as a mask,
loggers under any chain of children, the four stripping passes of the write guard against a
token view, host templates, and the rebuilt authorization request.

**Strings and lists** (`BrandingPath`, `Roles`, `SchemaTree`, on `Text`). Path containment from
a refusal pattern, role lists and the start-up census, and the rows of the schema tree.

Code that changes state step by step is a class or a method with loops, proved against a
function; code made of expressions is functions.

What the proofs found where the code does less than its comments suggest; in each case the
model follows the code, and the exact condition is proved:

- `buildRuntime` leaves handles open for exactly the faults `Leaks` names: the `createDb`
  calls after the first, which stand in front of the `try`, and a throw from `startCleanupJob`
  itself, after `cleanupLocking` is open.
- Start-ups of `getRuntime` never overlap in a run exactly when no call comes while the promise
  is gone and the start-up behind it still under way (`NeverOverlapsIffNoLateCall`); the promise
  held is that of the start-up under way throughout exactly when `pending` is never cleared
  during one (`FliesSinglyIffQuiet`).
- Two runs of the SQL runner are in the air after a start exactly when one was there and the
  chosen text is neither blank nor blocked (`SecondFlightIff`). A blank or blocked start while
  one runs only takes the `running` off the panel, its controller still set
  (`StartGuardIsExact`); the buttons are guarded, the imperative handle is not.
- The cleanup schedule goes on until it is stopped exactly when no tick ends in a failure whose
  own log line throws: that line stands outside the `try`, in front of `next`
  (`ScheduleInvariant`).
- The write guard sees through a token, wherever it stands in a query, exactly when the token
  is `Harmless` (`SeenThroughIffHarmless`): a literal, a quoted identifier and a block comment
  need to be free of `--` on their last line; in the first two, what the pass over line
  comments leaves must close every `/*` it opens; and what the next pass leaves of an
  identifier must have an even number of apostrophes. Code and line comments always are. Behind
  any other token it gives the same answer whether a deletion stands there or nothing. Four
  queries that delete unflagged: `'--'DELETE`, `/*--*/DELETE`, `'/*'DELETE/**/` and
  `"'"DELETE'0'`.
- An interrupted authorization is lost exactly where a challenge expires or a password is
  refused on the way (`AuthorizationIsCarried`), and the handlers do not count: one page
  posted twice settles twice if it is accepted twice (`SettlementsAreAcceptances`).
- Redacting twice differs from redacting once exactly on trees that are not `Settled`: an
  error at the last depth.
- The sweep's counts are exact at every moment just when no access token outlives its refresh
  token (`CountsAreExactIff`).
- The number the census reports as users counts occurrences; it is the number of users
  exactly when nobody has the role stored twice (`CountIsUsersIffNoRepeats`).
- `replaceAll` gives `$` patterns in a host a meaning: the host is put in literally exactly when
  none of its own `$` starts a pattern (`ExpansionIsLiteralIff`), in every address that has no
  `$` or the like in front and none right behind the template, as no absolute one has. In front
  it would matter (`PatternStandsForItself`).
- A row of the schema tree is told from every other by its id where no name has a colon
  (`IdsTellRowsApart`); with one, two columns of two tables may share an id (`ColonsConfuse`).
- A rebuilt parameter keeps its values exactly when they survive the router's parser and
  `String()` (`RebuiltIffSurviving`); `[1,2]` does not (`JsonArrayIsLost`).

## Model

| member | source | states |
|---|---|---|
| `Retention.RunIsPurge` | apps/web/src/server/cleanup.ts:133-231 | Any list of the sweep's delete statements, in any order and number, leaves what the row-by-row closed form says for the latest cutoff of each table |
| `Retention.DeleteRaises` | apps/web/src/server/db/schema/auth-schema.ts:294-368 | One more statement, cascade and set-null included, moves the closed form to the raised cutoff and nothing else |
| `RetentionSweep.OrderIsIrrelevant` | apps/web/src/server/cleanup.ts:133-231 | Two lists of statements that cover each other leave the same database |
| `RetentionSweep.Absorption` | apps/web/src/server/cleanup.ts:117-131 | Once a whole sweep at the latest time is among the statements that ran, the database is that of this one sweep |
| `RetentionSweep.SweepsAreOneSweep` | apps/web/src/server/cleanup.ts:117-231 | Sweeping at any times, in any order, equals one sweep at the latest of them |
| `RetentionSweep.SweepIsIdempotent` | apps/web/src/server/cleanup.ts:133-231 | A second sweep at the same time removes nothing |
| `RetentionSweep.Tables.DeleteFrom` | apps/web/src/server/cleanup.ts:143-231 | The statement in place: the new rows of every table, and a count of the rows its own `where` accepted |
| `RetentionSweep.Tables.RunSweep` | apps/web/src/server/cleanup.ts:133-231 | The sweep in place: the database afterwards, and counts equal to the rows that were old when it began, whatever the earlier statements removed |
| `RetentionAccounting.CascadeAccounting` | apps/web/src/server/cleanup.ts:152-181 | Rows removed are rows counted plus the access rows that are not old themselves but whose refresh token is |
| `RetentionAccounting.SweptSizes` | apps/web/src/server/cleanup.ts:143-199 | The counts of sessions, verifications, assertions and pending requests are the rows these tables lost |
| `RetentionAccounting.SweptTokenSizes` | apps/web/src/server/cleanup.ts:152-224 | The counts of keys and refresh tokens are the rows lost; access tokens lose the cascaded rows on top |
| `RetentionAccounting.CountsAreRowsLost` | apps/web/src/server/cleanup.ts:143-199 | The reported sessions, verifications, assertions and pending requests, each, are the rows its own table lost |
| `RetentionAccounting.RecordCountsAreRowsLost` | apps/web/src/server/cleanup.ts:194-231 | Likewise device codes, rate limits and audit events |
| `RetentionAccounting.TokenCountsAreRowsLost` | apps/web/src/server/cleanup.ts:152-224 | Likewise keys and refresh tokens; of the access tokens the cascaded ones went on top |
| `RetentionAccounting.RefreshFirstSameRows` | apps/web/src/server/cleanup.ts:152-181 | Deleting refresh tokens before access tokens reaches the same database |
| `RetentionAccounting.RefreshFirstCountsLess` | apps/web/src/server/cleanup.ts:152-154 | In that order the uncounted rows include all that the source's order leaves uncounted, and they account for the difference |
| `RetentionAccounting.CountsAreExactIff` | apps/web/src/server/cleanup.ts:152-181 | No sweep at any time has uncounted rows if and only if every access token dies no later than its refresh token |
| `RetentionAccounting.PurgedOnlyWhenDue` | apps/web/src/server/cleanup.ts:137-224 | In any run of statements up to a time, a token goes only if it, or an access token's parent, died over 30 days before, and a key only past its grace period and never without an expiry |
| `RetentionAccounting.SweepIsExact` | apps/web/src/server/cleanup.ts:137-224 | The tokens and keys after a sweep are exactly those not due, unchanged but for references to expired sessions |
| `RetentionAccounting.SweepIsExactOnExpiries` | apps/web/src/server/cleanup.ts:143-199 | The rows of the five tables with a plain expiry after a sweep are exactly those that expire now or later |
| `RetentionAccounting.SweepIsExactOnRecords` | apps/web/src/server/cleanup.ts:137-228 | Rate-limit rows are kept for a day and audit events for the configured retention, exactly |
| `SweepFleet.InterleavingIsIrrelevant` | apps/web/src/server/cleanup.ts:117-131 | Whatever several instances did (skipped, crashed half-way, took turns), once the latest sweep has finished the database is that of this sweep alone |
| `SweepFleet.AtMostOneSweeps` | apps/web/src/server/db/advisory-lock.ts:74-123 | In every run at most one instance is sweeping |
| `SweepFleet.LockChangesHands` | apps/web/src/server/db/advisory-lock.ts:74-123 | Who finishes or crashes lets go, the next to try begins, and a try while the lock is held changes nothing |
| `SweepFleet.SweepsAreCounted` | apps/web/src/server/cleanup.ts:117-131 | In every run each sweep begun has finished, has crashed or is the one going on |
| `KeyLife.LiveTokensVerify` | apps/web/src/server/cleanup.ts:211-224 | In every run of signing, retiring, waiting and sweeping, a token that has not expired finds its key |
| `KeyLife.LiveKeyStays` | apps/web/src/server/cleanup.ts:211-214 | A key without expiry is never removed by any run that does not retire it |
| `KeyLife.KeysAreExact` | apps/web/src/server/cleanup.ts:211-224 | After every run the keys are those whose last publication or retirement no sweep has found more than the grace period past its expiry |
| `KeyLife.TokensAreExact` | apps/web/src/server/cleanup.ts:211-214 | After every run the tokens are those signed in it, each with the clock of its signing |
| `KeyLife.SignedTokensFindTheirKey` | apps/web/src/server/cleanup.ts:211-224 | Told by the events alone: while a signed token is live, a publication or retirement of its key is still in force |
| `KeyLife.ExpiryAloneWouldBreak` | apps/web/src/server/cleanup.ts:211-213 | Deleting at expiry instead would remove the key of a live token; the source's cutoff keeps it |
| `KeyLife.StepVerifiable` | apps/web/src/server/oidc/rotate-keys.ts:124-134 | Every step keeps the invariant, retirement included, which only brings an expiry forward to a moment still to come |
| `SweepSchedule.DelayBounds` | apps/web/src/server/cleanup.ts:247-254 | Each delay is within a tenth of the interval, give or take half a millisecond |
| `SweepSchedule.DelayIsLinear` | apps/web/src/server/cleanup.ts:279-284 | Each delay follows the random number evenly from nine tenths of the interval to eleven |
| `SweepSchedule.DelayGrows` | apps/web/src/server/cleanup.ts:279-284 | A larger draw never gives a shorter delay, and the middle one gives the interval |
| `SweepSchedule.ScheduleInvariant` | apps/web/src/server/cleanup.ts:270-308 | In every run an armed timer and a running tick exclude each other and ticks never overlap; one of them is there if and only if nobody stopped the schedule and no failure went unreported; after `stop` nothing begins |
| `SweepSchedule.DeadIsDead` | apps/web/src/server/cleanup.ts:294-298 | Once neither is there nothing can happen but `stop` |
| `SweepSchedule.FromTheStart` | apps/web/src/server/cleanup.ts:270-308 | The same from the job's start, and exactly which delays are drawn, how many ticks begin and which lines are written |
| `SweepSchedule.RunsAreRecorded` | apps/web/src/server/cleanup.ts:279-298 | In every run: a delay for each tick that ended before a stop, with the random number drawn for it; a tick for each timer that fired; the lines of each tick, in order |
| `SweepSchedule.TicksFollowDelays` | apps/web/src/server/cleanup.ts:279-307 | Every tick was scheduled, and until a stop every delay but the one waited for has led to a tick |
| `SweepSchedule.CleanupJob.TickEnds` | apps/web/src/server/cleanup.ts:286-298 | The rest of a tick, `try` and `catch` included: which line is written, and that the schedule goes on if and only if it is not stopped and a failure, if any, could be reported |
| `SweepSchedule.CleanupJob.TickBegins` | apps/web/src/server/cleanup.ts:279-287 | The timer fires: it is no longer armed, one tick more runs, and the schedule stays orderly |
| `SweepSchedule.CleanupJob.StopSchedule` | apps/web/src/server/cleanup.ts:301-307 | Stopping clears the armed timer and keeps the schedule orderly |
| `SweepSchedule.StopAgain` | apps/web/src/server/cleanup.ts:252-255 | Stopping again, whatever ran in between, changes nothing |
| `AddressDenotation.ParserIsExact` | apps/web/src/lib/gateway-rules.ts:88-123 | The parser answers these hextets if and only if the text legally spells them |
| `AddressDenotation.RoundTrip` | apps/web/src/lib/gateway-rules.ts:88-123 | Full or compressed, quad tail, either case, brackets, zone, white space: every legal spelling is read as what it denotes |
| `AddressDenotation.OnlySpellings` | apps/web/src/lib/gateway-rules.ts:88-123 | Whatever is accepted is a legal spelling of the answer |
| `AddressDenotation.ParseIpv6` | apps/web/src/lib/gateway-rules.ts:88-123 | The parser as written, rewriting one text, with the same exactness |
| `AddressSpelling.QuadRoundTrip` | apps/web/src/lib/gateway-rules.ts:80-85 | Every dotted quad is read as its four octets, each worth its decimals weighted by powers of ten |
| `AddressSpelling.QuadInverse` | apps/web/src/lib/gateway-rules.ts:80-85 | Whatever the IPv4 parser accepts is a dotted quad of its answer |
| `AddressDenotation.PrintedQuadIsRead` | apps/web/src/lib/gateway-rules.ts:66-85 | Any four octets, printed in decimals, are read as themselves, and are link-local, bare or embedded, if and only if they begin 169.254 |
| `AddressDenotation.MetadataAddress` | apps/web/src/lib/gateway-rules.ts:66-85 | `169.254.169.254` is read as its octets and is link-local |
| `AddressDenotation.LinkLocalInCapitals` | apps/web/src/lib/gateway-rules.ts:71-123 | `FE80::1%en0` is read as its hextets and is link-local |
| `Digits.OctetIsRead` | apps/web/src/lib/gateway-rules.ts:80-85 | The octet pattern accepts one to three decimals, and the parser takes them for their sum weighted by powers of ten |
| `Digits.GroupIsRead` | apps/web/src/lib/gateway-rules.ts:101-110 | Lowered, a group is accepted exactly if it is one to four hexadecimal digits of either alphabet, and taken for their sum weighted by powers of sixteen |
| `GatewayRules.Ipv6ValueShape` | apps/web/src/lib/gateway-rules.ts:116-122 | Whatever is accepted has eight entries below 65536 |
| `GatewayRules.ToHexRoundTrip` | apps/web/src/lib/gateway-rules.ts:101-103 | The hexadecimal groups a quad is rewritten to read back as the same numbers and fit a group |
| `AddressDenotation.HextetsInRange` | apps/web/src/lib/gateway-rules.ts:71-77 | The mask and shift tests equal a range test on the 128-bit value |
| `AddressDenotation.LinkLocalIsExact` | apps/web/src/lib/gateway-rules.ts:66-78 | Link-local if and only if the text denotes, by the worth of its digits, a link-local IPv4 address or an IPv6 address in range |
| `AddressDenotation.SameAddressSameAnswer` | apps/web/src/lib/gateway-rules.ts:66-78 | Two spellings of one address get the same answer |
| `AddressDenotation.EmbeddedFormsAgree` | apps/web/src/lib/gateway-rules.ts:72-77 | A quad, its mapped form and its compatible form get the same answer |
| `SqlGuard.GuardSeesExactlyCode` | packages/ui/src/components/sql-runner.tsx:121-135 | On a legal query of harmless tokens the guard fires if and only if some code has a write keyword as a maximal run, its letters in either case |
| `SqlGuard.CaseMakesNoDifference` | packages/ui/src/components/sql-runner.tsx:129-135 | Any two queries whose letters differ only in case get the same answer, legal or not |
| `SqlGuard.KeywordIsFlagged` | packages/ui/src/components/sql-runner.tsx:129-135 | Every write keyword in letters of either case is flagged, whatever code stands around it |
| `SqlGuard.StatementsAreFlagged` | packages/ui/src/components/sql-runner.tsx:98-135 | Each of the twenty keywords in small letters is flagged on its own |
| `SqlGuard.SmallDelete` | packages/ui/src/components/sql-runner.tsx:129-135 | `delete from t` is flagged, `select 1` is not |
| `SqlGuard.SeenThroughIffHarmless` | packages/ui/src/components/sql-runner.tsx:121-135 | Of all tokens the language allows, the guard is exact around a token in every context if and only if it is harmless |
| `SqlGuard.HarmfulIsNotSeenThrough` | packages/ui/src/components/sql-runner.tsx:121-135 | Behind any other token there is a legal query on which the guard is wrong |
| `SqlGuard.DeletionIsHidden` | packages/ui/src/components/sql-runner.tsx:121-135 | Behind any harmful token without letters a deletion is not flagged |
| `SqlGuard.DashesInALiteral` | packages/ui/src/components/sql-runner.tsx:123 | `'--'DELETE` is a query whose code deletes, and is not flagged |
| `SqlGuard.DashesInAComment` | packages/ui/src/components/sql-runner.tsx:123-124 | `/*--*/DELETE` likewise |
| `SqlGuard.MarkInALiteral` | packages/ui/src/components/sql-runner.tsx:124 | `'/*'DELETE/**/` likewise |
| `SqlGuard.ApostropheInAnIdentifier` | packages/ui/src/components/sql-runner.tsx:125-126 | `"'"DELETE'0'` likewise |
| `SqlGuard.DashesHideTheLine` | packages/ui/src/components/sql-runner.tsx:123 | Behind any two dashes, the rest of their line makes no difference, whatever stands before them and on the lines behind |
| `SqlTokens.StrippedText` | packages/ui/src/components/sql-runner.tsx:121-126 | On harmless tokens the four passes replace exactly the comments, literals and quoted identifiers |
| `SqlNoise.WordsAreMaximalRuns` | packages/ui/src/components/sql-runner.tsx:130-134 | The matched tokens are exactly the maximal runs of letters and underscores |
| `SqlNoise.MatchIsLongestQuoted` | packages/ui/src/components/sql-runner.tsx:125-126 | On any text, closed or not, the pattern takes the longest prefix that is a quoted text with its quotes doubled |
| `SqlNoise.LineEndsAre` | packages/ui/src/components/sql-runner.tsx:123 | A line comment ends in front of one of the four line terminators |
| `Text.CaseMaps` | packages/ui/src/components/sql-runner.tsx:131 | Lower and upper case map a letter to its partner in the other alphabet and leave all else alone |
| `Text.SpacesAre` | packages/ui/src/components/sql-runner.tsx:789 | What a trim takes off, character by character |
| `SqlRunner.StepCoherent` | packages/ui/src/components/sql-runner.tsx:761-832 | Every step, starts overlapping or not, keeps: the controller is a live run's, result and last query come from one uncancelled run, nothing flagged ran in read mode |
| `SqlRunner.RunsStayCoherent` | packages/ui/src/components/sql-runner.tsx:761-850 | The same in every run of steps, where the mode is that of the last switch and the text the one last typed |
| `SqlRunner.AbortedRunIsSilent` | packages/ui/src/components/sql-runner.tsx:812-824 | An aborted run's late completion or failure changes nothing a user or the next run sees |
| `SqlRunner.StartGuardIsExact` | packages/ui/src/components/sql-runner.tsx:880-895 | A start keeps status, controller and flight in step if and only if nothing is running |
| `SqlRunner.SecondFlightIff` | packages/ui/src/components/sql-runner.tsx:788-804 | A start leaves at most one unaborted run in flight if and only if none was running or the chosen text is blank or blocked |
| `SqlRunner.GuardedRunsKeepSingleFlight` | packages/ui/src/components/sql-runner.tsx:782-832 | Under the guards every run keeps: running if and only if a controller is set, it is the only unaborted run in flight, and the panel agrees with the status |
| `SqlRunner.FromTheStart` | packages/ui/src/components/sql-runner.tsx:755-895 | All three invariants for every guarded run of a fresh component, with the mode last switched to, the text last typed, and exactly the requests these call for |
| `SqlRunner.RequestsAreSent` | packages/ui/src/components/sql-runner.tsx:761-810 | In every run, guarded or not, what is sent off is, in order, the trimmed selection or else the trimmed text last typed of each start, in the mode last switched to, unless blank or blocked |
| `SqlRunner.NothingWritesInReadMode` | packages/ui/src/components/sql-runner.tsx:772-800 | After a switch to read mode nothing flagged is sent off until the next switch |
| `SqlRunner.ResultComesFromCompletion` | packages/ui/src/components/sql-runner.tsx:812-819 | The result and its query change with the completion of an uncancelled run, and become that run's, and with nothing else |
| `SqlRunner.TroubleIsShown` | packages/ui/src/components/sql-runner.tsx:788-824 | What is shown of a failure, a blank query, a blocked one and a cancellation |
| `SqlRunner.AbortsComeFromCancel` | packages/ui/src/components/sql-runner.tsx:782-831 | A run is aborted by a cancel while its controller is current, and by nothing else; it settles by its own answer alone |
| `SqlRunner.StepPanelAgrees` | packages/ui/src/components/sql-runner.tsx:761-832 | Every guarded step keeps: an error text exactly under `error`, a result under `success` and none under `idle`, `blocked` only in read mode |
| `SqlRunner.EditClears` | packages/ui/src/components/sql-runner.tsx:761-770 | Typing leaves no error, refusal or cancellation on display and touches neither the result nor a run |
| `SqlRunner.CancelSilencesEverything` | packages/ui/src/components/sql-runner.tsx:782-786 | After a guarded cancel no run still in flight can change what is shown |
| `SqlRunner.Component.BeginRun` | packages/ui/src/components/sql-runner.tsx:788-810 | Starting in place: blank and blocked queries, or a new run with its controller |
| `SqlRunner.Component.FinishRun` | packages/ui/src/components/sql-runner.tsx:812-831 | Completing in place, invariants kept |
| `SqlRunner.Component.CancelRun` | packages/ui/src/components/sql-runner.tsx:782-786 | Cancelling in place, invariants kept |
| `SqlRunner.Component.FailRun` | packages/ui/src/components/sql-runner.tsx:821-831 | Failing in place, invariants kept |
| `SqlRunner.Component.SetMode` | packages/ui/src/components/sql-runner.tsx:772-780 | Switching in place: the mode is the one switched to, text and runs stay, invariants kept |
| `SqlRunner.Component.SetQuery` | packages/ui/src/components/sql-runner.tsx:761-770 | Typing in place: the text is the one typed, mode and runs stay, invariants kept |
| `RuntimeHandles.Handles.BuildRuntime` | apps/web/src/server/runtime.ts:125-246 | For every console mode and fault: it fails exactly when the fault strikes; a failure leaves the open handles as they were exactly unless the fault is a leaking one; a success leaves open exactly the runtime's own |
| `RuntimeHandles.Handles.BuildAndShutdown` | apps/web/src/server/runtime.ts:214-245 | Build and shut down leaves the open handles as they were if and only if the fault is not a leaking one |
| `RuntimeMemo.RunsAreAccounted` | apps/web/src/server/runtime.ts:72-123 | In every run, whenever it clears, each start-up has ended or is under way, the promise held is that of one under way or of one that succeeded, the failures counted are those that happened, and the log has each failure that does not repeat the ending before it |
| `RuntimeMemo.NeverOverlapsIffNoLateCall` | apps/web/src/server/runtime.ts:85-123 | In every run, start-ups never overlap if and only if no call finds the promise gone while a start-up is under way |
| `RuntimeMemo.FromTheStart` | apps/web/src/server/runtime.ts:72-123 | Both conditions and the accounts for every run of a fresh process |
| `RuntimeMemo.QuietRunsEndSingly` | apps/web/src/server/runtime.ts:85-123 | A run that clears only between start-ups ends with at most the one whose promise is held, and started = failed + dropped + held |
| `RuntimeMemo.FliesSinglyIffQuiet` | apps/web/src/server/runtime.ts:85-123 | The promise held is that of the start-up under way throughout, if and only if the run never clears during one |
| `RuntimeMemo.StartedIsFailedPlusHeld` | apps/web/src/server/runtime.ts:85-100 | From the start, with calls and completions alone, started = failures that happened + held, and at most one start-up is under way |
| `RuntimeMemo.CallAfterFailureStartsAnew` | apps/web/src/server/runtime.ts:85-97 | The call after a failure begins a new start-up and is handed its promise |
| `RuntimeMemo.CallAfterSuccessShares` | apps/web/src/server/runtime.ts:85-100 | Calls after a success are handed the runtime that was built |
| `RuntimeMemo.ClearGuardIsExact` | apps/web/src/server/runtime.ts:117-123 | Clearing the held promise is safe if and only if no start-up is under way; otherwise the next call starts a second |
| `RuntimeMemo.StepLogIsFaithful` | apps/web/src/server/runtime.ts:72-97 | Every step keeps the failure log faithful |
| `RuntimeMemo.Memo.GetRuntime` | apps/web/src/server/runtime.ts:85-100 | A held promise is shared, and a new start-up begins only without one |
| `RuntimeMemo.Memo.BuildFailed` | apps/web/src/server/runtime.ts:91-97 | A failure is let go of, counted, and logged unless it repeats |
| `RuntimeMemo.Memo.BuildSucceeded` | apps/web/src/server/runtime.ts:85-100 | A success ends the repetition of a failure and keeps single flight |
| `Redaction.RedactionIsNonInterfering` | apps/web/src/server/logger.ts:164-195 | Trees that differ only under redacted keys or below the last depth redact alike |
| `Redaction.RedactionLosesNothingElse` | apps/web/src/server/logger.ts:168-188 | Plain trees that redact alike differ nowhere else |
| `Redaction.RedactionMasks` | apps/web/src/server/logger.ts:164-188 | Whatever is redacted, from whatever depth, has the mark under every redacted key |
| `Redaction.KeyRuleIgnoresSpelling` | apps/web/src/server/logger.ts:190-195 | Neither letter case nor a `-` or `_` anywhere changes whether a key is redacted |
| `Redaction.KeyRuleIgnoresCase` | apps/web/src/server/logger.ts:190-195 | Neither does the case of any letter |
| `Redaction.KeyRuleIsTheList` | apps/web/src/server/logger.ts:51-80 | Looking up the bare name is comparing it with each of the 28 names listed, in whatever spelling |
| `Redaction.OpenTreesStay` | apps/web/src/server/logger.ts:164-188 | A tree with nothing redacted, rewritten or too deep comes out as it is |
| `Redaction.SixLevels` | apps/web/src/server/logger.ts:164-188 | Under lists and open keys a value is redacted where it stands down to six levels, and cut off at the seventh |
| `Redaction.ErrorsAndDatesAreShown` | apps/web/src/server/logger.ts:168-188 | An error shows its name, message and stack, a date its ISO form |
| `Redaction.IdempotentIffSettled` | apps/web/src/server/logger.ts:164-188 | Redacting twice is redacting once if and only if no error sits at the last depth with fields still to cut |
| `Logging.RedactValue` | apps/web/src/server/logger.ts:168-188 | The recursion that fills a result object computes the redaction |
| `Logging.MergeAssociates` | apps/web/src/server/logger.ts:137-156 | Spreading objects, insertion order included, is associative |
| `Logging.RedactMerge` | apps/web/src/server/logger.ts:137-156 | Redaction distributes over the spread |
| `Logging.GetMerge` | apps/web/src/server/logger.ts:137-156 | The spread keeps what only one side has and lets the later side win, key by key |
| `Logging.RecordHolds` | apps/web/src/server/logger.ts:131-148 | Every key of a record: the call's field, or else the logger's, or else the header's |
| `Logging.LevelsInOrder` | apps/web/src/server/logger.ts:14-23 | The five levels in order, and their names |
| `Logging.ChildrenWriteTheSameRecord` | apps/web/src/server/logger.ts:130-160 | A logger at the end of any chain of children writes the record the root would write with all fields merged |
| `Logging.RecordIsNonInterfering` | apps/web/src/server/logger.ts:131-148 | Base and call fields that differ only in redacted places give the same record |
| `Logging.Logger.Emit` | apps/web/src/server/logger.ts:131-148 | Below the threshold nothing is written; else one record more: the header spread with the logger's and the call's fields as one object redacted once, with no value shown under a redacted key at any depth |
| `Logging.RecordIsMasked` | apps/web/src/server/logger.ts:131-148 | No record shows a value under a redacted key, at any depth |
| `OauthQuery.RawSearch` | apps/web/src/lib/oauth-query.ts:60-71 | The nested appending loops yield every entry's pairs in order |
| `OauthQuery.RebuiltValues` | apps/web/src/lib/oauth-query.ts:60-71 | Every key reads back as the values its parameter stands for |
| `OauthQuery.ParametersAreWritten` | apps/web/src/lib/oauth-query.ts:60-71 | One value for each item of a list, none for an absent parameter, otherwise one, the text of the value |
| `OauthQuery.SearchStringIs` | apps/web/src/lib/search-params.ts:18-26 | A number or a boolean reads as its text, a list or an object as nothing |
| `OauthQuery.RebuiltIffSurviving` | apps/web/src/lib/oauth-query.ts:50-71 | A grouped search is rebuilt with the original values of a key if and only if they survive parsing and `String()` |
| `OauthQuery.JsonArrayIsLost` | apps/web/src/lib/oauth-query.ts:55-58 | The value `[1,2]`, parsed as a list, comes back as two values |
| `OauthQuery.LookupsAreRead` | apps/web/src/lib/oauth-query.ts:80-90 | A carried request wins; without one, nothing is read unless signature and client are both there |
| `OauthQuery.SignedRequestIsReadBack` | apps/web/src/lib/oauth-query.ts:60-90 | On a page reached straight from the provider the request read gives every surviving parameter the values it came with |
| `SignInChain.PostLogin` | apps/web/src/routes/login.tsx:74-188 | The answer hands on the trimmed request and the safe destination, dropping the request on a refusal and both for a status page; it leads to the second factor if one is owed, else to a new password if that is owed, and settles only when neither is |
| `SignInChain.PostTwoFactor` | apps/web/src/routes/two-factor.tsx:64-138 | The answer hands on both values unless the challenge expired, which leads back to `/login` and drops both; a wrong code and a lock-out lead back with their own error; only the right code settles |
| `SignInChain.PostChangePassword` | apps/web/src/routes/change-password.tsx:54-99 | The answer hands on both values; a refusal leads back to the same page, and only a change settles |
| `SignInChain.AuthorizationIsCarried` | apps/web/src/routes/login.tsx:132-187 | After an accepted password, in every history of posts of any page shown, a settled sign-in has the request `/login` received if and only if no challenge expired and no password was refused on the way to it, and the destination likewise |
| `SignInChain.EveryPageHands` | apps/web/src/routes/two-factor.tsx:47-154 | Every answer of a history hands on each value exactly where it was not dropped on the way |
| `SignInChain.EveryPageAsks` | apps/web/src/routes/login.tsx:117-187 | Every page of every history asks for exactly what is owed there |
| `SignInChain.SecondFactorIsAsked` | apps/web/src/routes/login.tsx:132-146 | Where the password alone was not enough, no history settles without the right code or another accepted sign-in on the way |
| `SignInChain.NewPasswordIsAsked` | apps/web/src/routes/login.tsx:148-170 | Where the password has to be changed, no history settles without that |
| `SignInChain.SwitchShowsTheOtherForm` | apps/web/src/routes/two-factor.tsx:143-160 | The link between the two forms of the second factor shows the other one |
| `SignInChain.SettlementsAreAcceptances` | apps/web/src/routes/change-password.tsx:54-99 | A history settles exactly once for every accepted post, a page posted again included |
| `SignInChain.RepostSettlesAgain` | apps/web/src/routes/change-password.tsx:75-98 | One page posted twice and accepted twice settles twice, with the same answer |
| `SignInChain.RefusalDropsTheRequest` | apps/web/src/routes/login.tsx:122-129 | A refused password keeps the destination and drops the request |
| `SignInChain.SafeReturnToIdempotent` | apps/web/src/server/http/auth-proxy.ts:241-253 | Applying the return-path rule again changes nothing |
| `SignInChain.SafeReturnToIsLocal` | apps/web/src/server/http/auth-proxy.ts:241-253 | What comes out is the trimmed path if it is one of this host, and otherwise the fallback |
| `SignInChain.PagesHoldLocalPaths` | apps/web/src/routes/two-factor.tsx:52-60 | A page holds no destination but a path of this host, whatever its address says |
| `RedirectTemplate.ExactlyOnce` | apps/web/src/lib/client-rules.ts:106-128 | Replacing the first template and looking again accepts exactly the texts with one template |
| `RedirectTemplate.AcceptedIffAcceptable` | apps/web/src/lib/client-rules.ts:102-143 | Accepted if and only if the value has no `*` and no `#`, a scheme allowed for the client, and, if it holds a template, holds it once and is read, the placeholder in its place, as having that host and no credentials |
| `RedirectTemplate.ProblemIs` | apps/web/src/lib/client-rules.ts:102-143 | Which problem is named, for the refused |
| `RedirectTemplate.AcceptedExpandsInPlace` | apps/web/src/lib/client-rules.ts:88-143 | An accepted templated URI has one template, no `*` and no `#`; a host free of `$` patterns expands to prefix, host, suffix, and, beside plain sides, no other host does |
| `RedirectTemplate.ExpansionFillsEveryTemplate` | apps/web/src/lib/client-rules.ts:88-90 | Any URI comes apart at its templates, and a host without `$` patterns stands between the same pieces afterwards, however many there are |
| `RedirectTemplate.ExpansionIsLiteralIff` | apps/web/src/lib/client-rules.ts:88-90 | The host is put in as it is if and only if it has no `$` pattern, whatever `$` the address has elsewhere than in front and right behind the template |
| `RedirectTemplate.PatternStandsForItself` | apps/web/src/lib/client-rules.ts:88-90 | With such a front, a host that is a pattern comes out as itself |
| `RedirectTemplate.DoubledDollarIsNotLiteral` | apps/web/src/lib/client-rules.ts:88-90 | A host that is not put in as it is |
| `BrandingPath.ParentSegments` | apps/web/src/server/branding.ts:59 | The character pattern refuses a parent if and only if some segment is `..` |
| `BrandingPath.AcceptedIffPlainAndTyped` | apps/web/src/server/branding.ts:42-74 | Served if and only if the path is relative, without parent segment, drive, backslash, zero or scheme, and ends in the name of an image or a font |
| `BrandingPath.EveryTypeIsServed` | apps/web/src/server/branding.ts:42-74 | Each of the ten types, its extension in either case, is served under every simple name |
| `BrandingPath.AcceptedStaysInside` | apps/web/src/server/branding.ts:67-74 | Against any root an accepted path resolves to the root followed by its own names, strictly inside, so the later check never refuses |
| `BrandingPath.OneParentLeaves` | apps/web/src/server/branding.ts:189-192 | One parent segment leaves the folder, is refused by the pattern, and would be refused by the later check |
| `SchemaTree.GetVisibleRows` | packages/ui/src/components/schema-explorer.tsx:122-171 | The pushing loops yield the concatenated blocks of the visible tables |
| `SchemaTree.OpenBlock` | packages/ui/src/components/schema-explorer.tsx:140-168 | An open table's rows one by one: itself, its columns, its indexes, its references, in the order of the schema |
| `SchemaTree.BlocksAreRanked` | packages/ui/src/components/schema-explorer.tsx:140-168 | Under any search the kinds keep that order |
| `SchemaTree.SearchShowsASubsequence` | packages/ui/src/components/schema-explorer.tsx:99-171 | Rows under any search are a subsequence of the fully expanded rows |
| `SchemaTree.SearchIsExact` | packages/ui/src/components/schema-explorer.tsx:99-168 | A row is there if and only if its table is listed and the search finds it: by table name, column name or type, index name or indexed column |
| `SchemaTree.SearchLooksEverywhere` | packages/ui/src/components/schema-explorer.tsx:94-120 | What is typed, trimmed and in any case, is looked for in names of tables, columns and indexes, in column types and in indexed columns |
| `SchemaTree.OpeningAddsRows` | packages/ui/src/components/schema-explorer.tsx:122-171 | Without a search, opening more tables only adds rows |
| `SchemaTree.RowsAreInBlocks` | packages/ui/src/components/schema-explorer.tsx:140-168 | Every row stands in a contiguous block headed by its own table's row |
| `SchemaTree.ArrowLeftFindsTheHead` | packages/ui/src/components/schema-explorer.tsx:607-616 | From any child, ArrowLeft targets a visible row: the head of its block |
| `SchemaTree.ArrowRightEntersTheBlock` | packages/ui/src/components/schema-explorer.tsx:595-606 | Where ArrowRight moves, it enters the block, and ArrowLeft comes back |
| `SchemaTree.ArrowRightIs` | packages/ui/src/components/schema-explorer.tsx:595-606 | ArrowRight focuses the first child of an expanded table that has one, and otherwise moves nothing |
| `SchemaTree.KeysOpenAndClose` | packages/ui/src/components/schema-explorer.tsx:595-612 | On a table's row right opens and left closes, and one undoes the other |
| `SchemaTree.IdsTellRowsApart` | packages/ui/src/components/schema-explorer.tsx:122-168 | Where names have no colon, the id of a row tells its kind, table and name |
| `SchemaTree.RowsAreMade` | packages/ui/src/components/schema-explorer.tsx:122-168 | Every visible row is one of these, its id put together from kind, table and name |
| `SchemaTree.ColonsConfuse` | packages/ui/src/components/schema-explorer.tsx:122-168 | With colons two rows of two tables share an id |
| `Roles.SplitJoinRoles` | apps/web/src/server/role-utils.ts:11-25 | Splitting a joined list gives all the roles of the list, for every list |
| `Roles.EffectiveRolesAreStable` | apps/web/src/server/role-utils.ts:32-38 | Storing the effective roles and reading them again changes nothing, for every catalog |
| `Roles.EffectiveRolesInCatalogOrder` | apps/web/src/server/role-utils.ts:32-38 | The effective roles stand in the order of the catalog, each there if and only if it is held |
| `Roles.WarnAboutUnknownRoles` | apps/web/src/server/startup.ts:334-346 | The counting loops: a name is counted if and only if it is unknown and held, with its total occurrences |
| `Roles.CountedIffDropped` | apps/web/src/server/startup.ts:340-346 | Counted if and only if some user holds it and loses it from the effective roles |
| `Roles.CountIsUsersIffNoRepeats` | apps/web/src/server/startup.ts:348-361 | The reported number is the number of users if and only if nobody has the role twice |

## Left out

- Letter case beyond ASCII: `toLowerCase` and `toUpperCase` map `A`-`Z` and `a`-`z` only, so the few other characters with an ASCII case partner are not modelled.
- `Proper` in `Logging.RedactValue`: says that an object has each key once, as JavaScript objects do; `__proto__` and integer-like keys, which are ordered or stored specially, are not modelled.
- Log values are trees of the listed kinds; functions, symbols, cycles, numbers other than integers and the JSON or pretty text of a line are not modelled.
- Of SQL's tokens only those with plain quotes are modelled: dollar-quoted and `E` strings, and block comments that nest, are not; a block comment ends at the first `*/`, as in the passes.
- Line comments that hold U+2028 or U+2029: SQL reads on behind them, the patterns do not, and no token of the model holds one.
- That the host a parser reports is the one the placeholder was put into: a URI that itself names the placeholder's host is not told apart.
- React: batching, closures over an older render, controlled props and the durations in a result are not modelled; a step reads the current state.
- The status of a component that is unmounted, and the selection's own tracking in the editor.
- `close()` counts as closed even where the source swallows its rejection; the rejection of `database.close()` in `shutdown` is not modelled.
- `setRuntime`, and waiting for a sweep in flight at shutdown: the source does not wait for it either.
- Lock waiting and its timeout: a waiting caller of the sweep is one that begins later; connections, their reservation and the lock's namespace are not modelled.
- Rows inserted between sweeps: absorption is about runs without inserts, as is the comparison with one sweep.
- Transactions inside one delete statement: a statement is one step.
- The columns of a row that the sweep neither reads nor changes.
- `resumeAuthorization`, `resolveSignInDestination`, `callAuth` and `changePassword` are parameters or outcomes; cookies, status codes and the notice on the banned page are not modelled.
- The 404 of `/two-factor` when the second factor is off, and a user who edits the hidden fields of a form.
- SignInChain.AuthorizationIsCarried: assumes that the router's parser leaves the carried request and the destination, a text that begins with a slash, as strings, which is what the source's own comment relies on.
- How often a code, a password or a challenge is accepted is the authentication library's affair: an acceptance is an outcome, and the number of settlements is the number of acceptances.
- URL parsing, percent decoding and `URLSearchParams` serialisation are parameters; encoding and decoding of a page address is taken to be the identity.
- `checkGatewayUrl`, `validateGatewayForm`, `validateClientForm`, `isValidClientId`, `isAdmin`, `safeUrlForLog`, `anonymizeIp` and `signedRequestExpired`: a reading settles each.
- File reading, content types and caching of branding files, and the memo of the branding root.
- Vertical movement and type-ahead in the schema tree, and its drawing.
- The order in which the census warnings are written: the census is a map.
- Windows paths: `resolve` and `sep` are those of POSIX.
