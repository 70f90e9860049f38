# Verified model of the platform's storage, sync and task core

This project models, in Dafny, the parts of the platform whose correctness rests on many cases, on many steps or on
several processes at once, and proves what they are meant to guarantee.

- **Clocks and merging.** The hybrid logical clock in TypeScript and its native twin with bounded integers
  (`HybridLogicalClock`, `NativeClock`), runs of any number of nodes exchanging stamps (`ClockRuns`,
  `NativeClockRuns`), timestamps as texts and their order (`IsoTime`, `TextOrder`), and last-writer-wins resolution on
  any number of replicas (`ConflictEngine`).
- **Features and migrations.** The dependency resolver with its explicit-stack search (`DependencyResolver`), the SQL
  script splitter (`SqlScript`, and `SqlPieces` for scripts as they are written), and the migration engine over any
  history of interrupted calls (`MigrationEngine`).
- **Tasks.** The retry decision (`TaskRetry`), the durable queue statement by statement (`TaskQueue`, and `TaskRows`
  column by column), and every interleaving of workers, recovery and cancellation over it (`TaskQueueRuns`).
- **Transactions.** The native connection that buffers writes against the memory connection that runs them with
  savepoints (`Transactions`).
- **Replication.** The outbox with its dispatch worker (`Outbox`, `OutboxRows`), every interleaving of workers and peers
  over it (`OutboxRuns`, `OutboxReach`), and the inbox (`Inbox`, `InboxRows`).
- **Identity and sessions.** Creating the device key by any number of processes (`DeviceKey`, `DeviceKeyProgress`), the
  session store with interleaved authentications and logouts (`SessionStore`, `SessionProgress`), and the login lockout
  with what a login grants (`LoginLockout`).
- **Encoders and arithmetic.** Sync operations as they are checked and signed (`SyncOperation`) over canonical
  JSON (`CanonicalJson`, `JsonText`, `JsonShortest`, `Utf8`), CSV export (`CsvExport`, `CsvShortest`), dates from day
  numbers (`CivilDate`), and the size estimate for SQL requests (`JsonSize`).
- **Shared.** `Wrappers`, `Selection` (ORDER BY with LIMIT), `Sorting` (stable sort), `Whitespace`, `Bytes`.

Objects that update their fields are classes here, with methods proved against functions that say what one call comes
to; protocols are state machines whose steps are single SQL statements or system calls, and their theorems hold over
all runs. `dafny verify dfyconfig.toml` checks everything.

Standards referred to: RFC 4180 section 2 (CSV), RFC 3339 section 5.7 and Appendix C (dates), RFC 8259 sections 2 to 7
(JSON), RFC 3629 section 3 (UTF-8).

Tables are maps of rows and each SQL statement is one atomic step. The partial unique index over active tasks and the
unique envelope ids are taken from the comments at `packages/tasks/src/queue/TaskQueueService.ts:232-234` and
`packages/sync/src/inbox/InboxService.ts:36-37`; the migration files that create them are not part of this model. Clock
readings, generated ids, random bytes, password checks, signature checks, peers' replies, aborts and failures of the
outside world are parameters, so the theorems hold for all of them. `localeCompare` is any total order in which
different strings may be equivalent.

Where the code differs from what is said about it, the code is modelled:

- The canonical form of an operation is documented as sorted alphabetically
  (`packages/sync-protocol/src/envelope/SyncEnvelopeBuilder.ts:32-38`). ECMAScript enumerates keys that are array indices
  first and by number, so `"9"` stands before `"10"`. The bytes are still the same for the same content
  (`CanonicalJson.SameBytesExactlyWhenSame`); `CanonicalJson.AlphabeticalExactlyWhenIndicesInPlace` says for which keys
  the order is alphabetical and `CanonicalJson.IndicesAreNotAlphabetical` gives keys for which it is not.
- A permission whose first owner has the empty string as its id can be declared again unnoticed
  (`packages/feature-system/src/registry/DependencyResolver.ts:29-30`): `DependencyResolver.EmptyOwnerGoesUnnoticed`.
- An attempt count passes its maximum exactly when a task with no attempt left is recovered and claimed again
  (`TaskQueueRuns.PassesMaximumExactlyWhen`), by as many as it was recovered and no more
  (`TaskQueueRuns.AttemptBoundIsReached`, `TaskQueueRuns.AttemptsBoundedByRecoveries`), and a report that names only a
  task can settle a newer attempt (`TaskQueueRuns.StaleSuccessSettlesNewerAttempt`).
- The two drivers can part where a savepoint catches a failing write, which the native one sees only when it replays.
  Then the native driver fails and keeps the database, while the eager one may commit the rest
  (`Transactions.CaughtWriteFailureParts`). A caller is safe where no write fails (`Transactions.NativeRefinesEager`) or
  where no handler stands around a body that has writes to collect (`Transactions.UncaughtWritesAgree`); for callbacks
  whose savepoints throw nothing of their own nothing less keeps the runs together
  (`Transactions.UncaughtExactlyWhenNeverParting`). Run by run, `Transactions.DriversAgreeExactly` says when they agree,
  save where a handler makes a body complete that throws when collected; there they may agree or both commit and differ
  (`Transactions.SurvivorsDecideNothing`).
- Equal timestamps on different envelopes keep replicas apart (`ConflictEngine.TiedReplicasPart`), also when one instant
  is written in the older and the newer form (`ConflictEngine.BothFormsTie`).
- Times beyond twelve or counters beyond four hexadecimal digits break the text order the inbox sorts by, and nothing
  else does (`HybridLogicalClock.TextOrderExactWidths`); stamps of the older form sort behind the others
  whatever their times (`HybridLogicalClock.LegacySortsLast`).
- The native clock does not refuse its last value but falls back, and its order of events fails exactly then
  (`NativeClockRuns.ClockConditionExactlyWhenUnsaturated`). It does not read stamps of the older form, nor counters beyond
  32 bits (`NativeClock.LegacyCountsAsLocal`, `NativeClock.ForeignStampPassedExactlyWhen`).
- A newer authentication may begin between an older one's check and its write
  (`SessionStore.NewerBeginMayPrecedeOlderWrite`).
- A CSV of a single column whose last cell is empty loses that row in readers that allow a final line break
  (`CsvExport.LenientReadsBackUnlessLastRowEmpty`).

## Model

| member | source | states |
|---|---|---|
| `ClockRuns.HappenedBeforeIsEarlier` | packages/sync-protocol/src/hlc/HybridLogicalClock.ts:21-56 | In every run of any number of nodes exchanging stamps, if one event happened before another, at one node or through messages, its stamp is strictly smaller, or the clock has refused to issue the later one. |
| `ClockRuns.StampTimeIsLatestReading` | packages/sync-protocol/src/hlc/HybridLogicalClock.ts:37-56 | Drift bound, exact: where no counter has overflowed in an event's causal past, the event issues a stamp whose time is a physical reading of that past, and no reading of it is later. |
| `ClockRuns.StepInRange` | packages/sync-protocol/src/hlc/HybridLogicalClock.ts:21-56 | Every issued stamp stays a safe integer pair, is not behind the wall clock, and lies past its node's clock and past the stamp received. |
| `ClockRuns.ClockNeverFallsBack` | packages/sync-protocol/src/hlc/HybridLogicalClock.ts:8-9 | Over any stretch of a run no node's clock moves back. |
| `ClockRuns.PrecedingIsEarlier` | packages/sync-protocol/src/hlc/HybridLogicalClock.ts:21-56 | One edge of the happened-before relation: the event before at the same node, or the event whose stamp was received, has the smaller stamp. |
| `ClockRuns.LatestIsInPast` | packages/sync-protocol/src/hlc/HybridLogicalClock.ts:37-56 | The latest reading computed along the run is a reading some event of the causal past made. |
| `ClockRuns.LatestBoundsPast` | packages/sync-protocol/src/hlc/HybridLogicalClock.ts:37-56 | No event of the causal past, however far back, read a later wall clock than that. |
| `ClockRuns.OverflowTakesManyEvents` | packages/sync-protocol/src/hlc/HybridLogicalClock.ts:117-127 | No counter overflows before there have been more events than a counter can count. |
| `HybridLogicalClock.TickMovesForward` | packages/sync-protocol/src/hlc/HybridLogicalClock.ts:21-32 | A local event moves the clock strictly forward and not behind the wall clock, and is refused exactly at the last representable clock value. |
| `HybridLogicalClock.MergeMovesForward` | packages/sync-protocol/src/hlc/HybridLogicalClock.ts:37-56 | A receipt moves the clock strictly past itself and past the stamp received, and is refused exactly when either stands at the last value. |
| `HybridLogicalClock.MergeByFields` | packages/sync-protocol/src/hlc/HybridLogicalClock.ts:21-56 | Without a carry: the latest of the times, and one more than the largest counter standing at it, zero if none does; a local event is a receipt of one's own stamp. |
| `HybridLogicalClock.FormatRoundTrip` | packages/sync-protocol/src/hlc/HybridLogicalClock.ts:58-75 | Parsing a formatted stamp gives it back exactly when the node id is non-empty and has no line terminator; otherwise it is no canonical stamp. |
| `HybridLogicalClock.LegacyReadsBack` | packages/sync-protocol/src/hlc/HybridLogicalClock.ts:77-94 | A stamp of the older form, date and time, decimal counter and node id, reads back exactly for every instant in a year of four digits, those before 1970 included; an unsafe counter or an impossible node id is refused. |
| `HybridLogicalClock.NoTextReadsBothWays` | packages/sync-protocol/src/hlc/HybridLogicalClock.ts:67-92 | No text is a stamp of both forms, so the order of the two attempts does not matter. |
| `HybridLogicalClock.ReceiptPassesWhatItRead` | packages/sync-protocol/src/hlc/HybridLogicalClock.ts:37-56 | Any text that parses, in either form and of any date, is strictly passed by its receipt unless the clock refuses, and the clock stays in range and not behind the wall clock. |
| `HybridLogicalClock.LegacySortsLast` | packages/sync-protocol/src/hlc/HybridLogicalClock.ts:77-94 | As texts, stamps of the older form from the year 1000 on stand behind every stamp of the newer form before the year 2527, whatever their times. |
| `HybridLogicalClock.TextOrderIsStampOrder` | packages/sync-protocol/src/hlc/HybridLogicalClock.ts:58-62 | For stamps that fit 12 and 4 hexadecimal digits, comparing the texts compares time, then counter, then node id: what the inbox's ORDER BY relies on. |
| `HybridLogicalClock.TextOrderExactWidths` | packages/sync-protocol/src/hlc/HybridLogicalClock.ts:58-62 | Text order is stamp order on all stamps below given positive bounds if and only if the bounds are within twelve digits of time and four of counter. |
| `HybridLogicalClock.WideCounterBreaksTextOrder` | packages/sync-protocol/src/hlc/HybridLogicalClock.ts:58-62 | Beyond four digits the text falls back: counter 0x10000 prints before counter 0xffff, at any time and node. |
| `HybridLogicalClock.WideTimeBreaksTextOrder` | packages/sync-protocol/src/hlc/HybridLogicalClock.ts:58-62 | Beyond twelve digits likewise: time 0x1000000000000 prints before the millisecond before it. |
| `HybridLogicalClock.HybridLogicalClock.Advance` | packages/sync-protocol/src/hlc/HybridLogicalClock.ts:117-127 | The counter carries into the time at the safe-integer limit, and at the last value nothing changes and an error is raised. |
| `HybridLogicalClock.HybridLogicalClock.Now` | packages/sync-protocol/src/hlc/HybridLogicalClock.ts:21-32 | The fields after the call, the stamp returned and the failure are those of the specified local step. |
| `HybridLogicalClock.HybridLogicalClock.Update` | packages/sync-protocol/src/hlc/HybridLogicalClock.ts:37-56 | A text that is a stamp of neither form changes nothing; otherwise the fields, the stamp and the failure are those of the specified merge. |
| `IsoTime.RoundTripCheckKeepsRealDates` | packages/sync-protocol/src/hlc/HybridLogicalClock.ts:79-91 | Comparing toISOString of what Date.parse returned with the text lets through exactly the texts that name a date of the calendar and a time of day, whatever the engine makes of the others. |
| `IsoTime.InstantReadsBack` | packages/sync-protocol/src/hlc/HybridLogicalClock.ts:87-87 | The text of an instant has the layout exactly in the years of four digits, and then reading it gives the instant back. |
| `IsoTime.TextWritesBack` | packages/sync-protocol/src/hlc/HybridLogicalClock.ts:87-87 | A text that names a real date and time of day is the text of the instant it names. |
| `IsoTime.TextOrderHoldsUntilYear10000` | packages/core/src/time/time.ts:5-7 | From 1970 up to an instant the database's order of timestamp texts is the order of time if and only if that instant is not past the year 9999. |
| `IsoTime.TextOrderIsTimeOrder` | packages/core/src/time/time.ts:5-7 | For any two instants in years of four digits, before 1970 too, text order is time order. |
| `NativeClock.TickForwardUnlessSaturated` | crates/crypto-core/src/hlc.rs:38-57 | The 64/32-bit clock moves strictly forward on a local event if and only if it is not at its last value, where it saturates silently. |
| `NativeClock.MergeForwardUnlessSaturated` | crates/crypto-core/src/hlc.rs:59-91 | A receipt moves strictly past both clocks if and only if neither is at the last value. |
| `NativeClockRuns.ClockConditionExactlyWhenUnsaturated` | crates/crypto-core/src/hlc.rs:38-91 | In every run of native clocks, also over any number of counter carries: everything that happened before an event has the smaller stamp, for all events, if and only if no event goes on from a clock at its last value. |
| `NativeClockRuns.NativeHappenedBeforeIsEarlier` | crates/crypto-core/src/hlc.rs:38-91 | Along any chain of local events and messages the native stamps grow. |
| `NativeClockRuns.NativeTimeIsLatestReading` | crates/crypto-core/src/hlc.rs:38-91 | Drift bound: where no counter has overflowed in an event's causal past, its stamp's time is the latest physical reading of that past. |
| `NativeClockRuns.NativeNeverFallsBack` | crates/crypto-core/src/hlc.rs:38-91 | Over any stretch of an unsaturated run no node's clock moves back. |
| `NativeClockRuns.NativeStep` | crates/crypto-core/src/hlc.rs:38-91 | Every native stamp stays in range and not behind the wall clock; it lies past its node's clock and past the stamp received exactly when neither stands at its last value. |
| `NativeClock.NativeReadsWhatFits` | crates/crypto-core/src/hlc.rs:93-108 | A formatted stamp reads back natively exactly when its numbers fit 64 and 32 bits, whatever underscores its node id holds. |
| `NativeClock.ForeignStampPassedExactlyWhen` | crates/crypto-core/src/hlc.rs:59-91 | A TypeScript stamp received natively is passed exactly when its counter fits 32 bits, or the wall clock or the own clock is past its millisecond, or in that millisecond the own counter carries. |
| `NativeClock.LegacyCountsAsLocal` | crates/crypto-core/src/hlc.rs:59-108 | A stamp of the older form is not read natively, and its receipt is no more than a local event. |
| `NativeClock.SaturatedFallsBack` | crates/crypto-core/src/hlc.rs:132-137 | At its last value the native clock falls back instead of moving on. |
| `NativeClock.SameStepsBelowCarry` | crates/crypto-core/src/hlc.rs:132-137 | Short of a counter carry the native clock and the TypeScript clock take the very same steps. |
| `NativeClock.NativeHybridLogicalClock.Now` | crates/crypto-core/src/hlc.rs:38-57 | Under its mutex the state becomes the specified step and the stamp carries it; widths are kept. |
| `NativeClock.NativeHybridLogicalClock.Update` | crates/crypto-core/src/hlc.rs:59-91 | As above for a receipt, from the stamp's text; one that cannot be read counts as time zero, counter zero. |
| `ConflictEngine.ConvergesExactlyWhenUntied` | packages/sync/src/conflict/ConflictEngine.ts:73-92 | All ways of delivering the same envelopes, in any order and with repetitions, end with the same one if and only if no two different envelopes share the greatest timestamp. |
| `ConflictEngine.LaterWins` | packages/sync/src/conflict/ConflictEngine.ts:73-92 | The remote envelope wins exactly if its time is later, or equal with a larger counter, or both equal with a node id collating behind. |
| `ConflictEngine.ReplicasConverge` | packages/sync/src/conflict/ConflictEngine.ts:73-92 | Two replicas fed the same envelopes in any orders with any duplicates hold the same envelope when the greatest is untied. |
| `ConflictEngine.FoldIsGreatest` | packages/sync/src/conflict/ConflictEngine.ts:73-92 | A replica ends with an envelope of greatest timestamp among those it was given. |
| `ConflictEngine.FoldIsGreatestDelivered` | packages/sync/src/conflict/ConflictEngine.ts:73-92 | The same for any delivery order and any repetitions of a set of envelopes. |
| `ConflictEngine.KeepCommutesUnlessTied` | packages/sync/src/conflict/ConflictEngine.ts:79-91 | Swapping local and remote changes the winner if and only if two different envelopes compare equal: local wins ties. |
| `ConflictEngine.KeepIsAssociativeAndIdempotent` | packages/sync/src/conflict/ConflictEngine.ts:73-92 | Resolution is associative and idempotent for all readable envelopes, ties included. |
| `ConflictEngine.DistinctTimestampsAreUntied` | packages/sync/src/conflict/ConflictEngine.ts:73-92 | Distinct timestamps on distinct envelopes suffice for convergence. |
| `ConflictEngine.TiedReplicasPart` | packages/sync/src/conflict/ConflictEngine.ts:79-85 | Two envelopes tied at the top let two replicas part for good, each keeping its own. |
| `ConflictEngine.BothFormsTie` | packages/sync/src/conflict/ConflictEngine.ts:73-92 | A stamp written in the older and in the newer form is one timestamp, so envelopes that differ only in that form are tied and replicas may part. |
| `ConflictEngine.OrderIsTotal` | packages/sync-protocol/src/hlc/HybridLogicalClock.ts:104-115 | Comparing stamps of either form by time, counter and node id is a total order: antisymmetric, reflexive, transitive, also where it is strict. |
| `DependencyResolver.Resolve` | packages/feature-system/src/registry/DependencyResolver.ts:13-123 | By the manifests' own fields: succeeds if and only if ids are unique, no name is declared a second time behind a named owner, every hard dependency is supplied, and no features need each other in a circle, hard or supplied optional dependencies alike. Success returns a permutation with everything a feature uses strictly before it, each feature's migrations sorted, and the migrations of what it needs before its own; each failure names a genuine duplicate, collision, missing dependency or circle. |
| `DependencyResolver.ResolvableByGraph` | packages/feature-system/src/registry/DependencyResolver.ts:56-105 | What the search decides about its graph is what the manifests' fields say. |
| `DependencyResolver.ClashesAreDeclaredTwice` | packages/feature-system/src/registry/DependencyResolver.ts:26-39 | A permission collides in the walk over all declarations exactly when it stands in two features' lists, or twice in one, the owner named and first. |
| `DependencyResolver.EachFeatureKeepsItsMigrations` | packages/feature-system/src/registry/DependencyResolver.ts:107-117 | Picked out of the collected migrations, each feature's are its own declared ones, sorted, and none come from elsewhere. |
| `DependencyResolver.Visit` | packages/feature-system/src/registry/DependencyResolver.ts:62-104 | The explicit-stack search from one root terminates and leaves every visited feature finished after its dependencies, or reports a genuine cycle of the graph. |
| `DependencyResolver.Search` | packages/feature-system/src/registry/DependencyResolver.ts:56-105 | The searches from all roots together finish every feature or report a genuine cycle. |
| `DependencyResolver.CompleteSearch` | packages/feature-system/src/registry/DependencyResolver.ts:56-105 | A finished search proves the graph acyclic and its order a permutation of the manifests with dependencies first. |
| `DependencyResolver.OrderedMeansAcyclic` | packages/feature-system/src/registry/DependencyResolver.ts:54-105 | A dependencies-first order of all features exists only if the graph has no cycle. |
| `DependencyResolver.PositionsFall` | packages/feature-system/src/registry/DependencyResolver.ts:54-105 | Along any dependency walk the positions in such an order fall by at least one a step. |
| `DependencyResolver.ClosingEdgeMakesCycle` | packages/feature-system/src/registry/DependencyResolver.ts:79-87 | A dependency met while it is being visited closes a real cycle: the slice of the path from it, and it again. |
| `DependencyResolver.FinishingKeepsOrder` | packages/feature-system/src/registry/DependencyResolver.ts:100-103 | Appending a feature whose dependencies are all finished keeps the order dependencies-first. |
| `DependencyResolver.ExhaustedMeansFinished` | packages/feature-system/src/registry/DependencyResolver.ts:73-103 | When a frame's cursor reaches its end all its dependencies are finished. |
| `DependencyResolver.IndexManifests` | packages/feature-system/src/registry/DependencyResolver.ts:14-24 | The index is built exactly when ids are unique; otherwise the id reported occurs at two positions. |
| `DependencyResolver.CheckPermissions` | packages/feature-system/src/registry/DependencyResolver.ts:26-39 | No error exactly when no permission is declared twice; the owner and claimant reported both declare it. As in the code, a first owner whose id is the empty string goes unnoticed. |
| `DependencyResolver.EmptyOwnerGoesUnnoticed` | packages/feature-system/src/registry/DependencyResolver.ts:26-39 | Two features declare the same permission and resolve all the same, the first having the empty text as its id. |
| `DependencyResolver.CheckDependencies` | packages/feature-system/src/registry/DependencyResolver.ts:41-52 | No error exactly when all hard dependencies are present; the one reported is required and absent. |
| `DependencyResolver.CollectMigrations` | packages/feature-system/src/registry/DependencyResolver.ts:107-117 | The migrations collected are those of the ordered features, feature by feature, each sorted. |
| `DependencyResolver.MigrationsAscend` | packages/feature-system/src/registry/DependencyResolver.ts:113-116 | A feature's migrations are permuted into ascending version numbers, equal versions in declared order. |
| `DependencyResolver.MigrationsFollowDependencies` | packages/feature-system/src/registry/DependencyResolver.ts:107-117 | Every migration of a feature comes after every migration of the features it depends on. |
| `DependencyResolver.MigrationsComeFromOrder` | packages/feature-system/src/registry/DependencyResolver.ts:112-117 | Every migration collected belongs to an ordered feature. |
| `SqlScript.SplitSqlScript` | packages/database/src/migrations/SqlScript.ts:50-121 | The character loop with its flags computes exactly the split that reads whole lexemes, for every script. |
| `SqlPieces.StatementsComeApart` | packages/database/src/migrations/SqlScript.ts:50-121 | Write statements down with comments, quotations with doubled marks, brackets, words, blanks, signs and trigger bodies anywhere, put semicolons between them, and the splitter returns each as it was written. |
| `SqlPieces.SplitsAsWritten` | packages/database/src/migrations/SqlScript.ts:50-121 | Script so written is split exactly where an open semicolon was written, from any point and state on. |
| `SqlPieces.PieceIsLexeme` | packages/database/src/migrations/SqlScript.ts:54-113 | Each kind of piece, followed by what it does not run together with, is taken whole and for what it is. |
| `SqlScript.SlicesCover` | packages/database/src/migrations/SqlScript.ts:99-104 | The slices are contiguous, in order, and cover the script from start to end. |
| `SqlScript.CutsFollowStatements` | packages/database/src/migrations/SqlScript.ts:99-104 | Each slice ends at the first semicolon outside quotations, comments and trigger bodies; no cut falls inside one. |
| `SqlScript.DroppedSlicesAreBlank` | packages/database/src/migrations/SqlScript.ts:99-120 | A slice is dropped if and only if it holds nothing but white space, comments and its semicolon. |
| `SqlScript.SplitAppend` | packages/database/src/migrations/SqlScript.ts:50-121 | Splitting is a homomorphism at every top-level cut: for a text that ends there, the split of a concatenation is the concatenation of the splits. |
| `SqlScript.SplitAppendFrom` | packages/database/src/migrations/SqlScript.ts:50-121 | The same from any lexeme boundary inside the first text. |
| `SqlScript.SplitShift` | packages/database/src/migrations/SqlScript.ts:18-25 | From the start of a statement on, what stands before it in the script does not matter. |
| `SqlScript.SplitOfJoin` | packages/database/src/migrations/SqlScript.ts:50-121 | Splitting the concatenation of the split returns the split. |
| `SqlScript.SplitAtFirstCut` | packages/database/src/migrations/SqlScript.ts:99-104 | Cutting at the first statement end and splitting both sides is splitting the whole; the part before is one statement or none. |
| `SqlScript.FirstCutIsFirstSlice` | packages/database/src/migrations/SqlScript.ts:99-104 | The first slice ends where the first cut is found, and is the only one if there is none. |
| `SqlScript.TextToFirstCut` | packages/database/src/migrations/SqlScript.ts:99-104 | The text up to its first cut is complete and splits into itself or into nothing. |
| `SqlScript.UncutText` | packages/database/src/migrations/SqlScript.ts:119-120 | A text without a cut is one statement or none. |
| `SqlScript.LexemePrefix` | packages/database/src/migrations/SqlScript.ts:54-113 | A lexeme that ends inside a text keeps its kind and end whatever is appended. |
| `SqlScript.LexemeShift` | packages/database/src/migrations/SqlScript.ts:54-113 | A lexeme has the same kind, length and text wherever it stands. |
| `SqlScript.KeptSemicolons` | packages/database/src/migrations/SqlScript.ts:99-104 | Inside a slice a semicolon is kept exactly when the words before it leave a trigger body open. |
| `SqlScript.TriggersExactly` | packages/database/src/migrations/SqlScript.ts:27-36 | A statement is a trigger if and only if its first words, in capitals, are CREATE TRIGGER, CREATE TEMP TRIGGER or CREATE TEMPORARY TRIGGER; nothing else has a body. |
| `SqlScript.TriggerBodyIsOpen` | packages/database/src/migrations/SqlScript.ts:27-48 | After such words, any others and BEGIN, the body is open through any text balanced in CASE and END, and closed behind its own END. |
| `SqlScript.UpperByCharacter` | packages/database/src/migrations/SqlScript.ts:28-28 | Capitals, character by character: letters move 32 code points down, everything else stays. |
| `SqlScript.BalancedBodyStaysOpen` | packages/database/src/migrations/SqlScript.ts:41-46 | A body balanced in CASE and END stays open throughout, and its own END closes it. |
| `MigrationEngine.AppliedVersionsArePrefixes` | packages/database/src/migrations/MigrationEngine.ts:112-197 | Over any history of calls with any supplied sets, statements and failures, each owner's applied versions are 1 up to some k. |
| `MigrationEngine.RetriesEndAsOneRun` | packages/database/src/migrations/MigrationEngine.ts:139-194 | After any number of calls with one set, failing at any points, a call that succeeds leaves the database one undisturbed call would have left, and that call would have succeeded. |
| `MigrationEngine.EffectsExactlyOnce` | packages/database/src/migrations/MigrationEngine.ts:152-194 | Then there are states, one after each pending statement, through which each statement run once and in order leads from the initial data to the final; what is applied is what was before and all supplied, each under its checksum. |
| `MigrationEngine.SucceedsExactlyWhen` | packages/database/src/migrations/MigrationEngine.ts:56-198 | A call succeeds if and only if the set may start, migrations applied before have their checksums, none pending is interrupted and the pending statements, each run once and in order, all succeed; and it leaves what the last of them does. |
| `MigrationEngine.ExecuteIsOnceEach` | packages/database/src/migrations/MigrationEngine.ts:165-169 | A list of statements comes to some data exactly if there are states through which each, run once, leads there. |
| `MigrationEngine.PendingExactly` | packages/database/src/migrations/MigrationEngine.ts:146-163 | Pending are exactly the supplied migrations not applied before, each once, by owner as collated and then by version. |
| `MigrationEngine.StatementsScriptByScript` | packages/database/src/migrations/MigrationEngine.ts:165-169 | Their statements are each script's own, as split, one script after the other. |
| `MigrationEngine.FurtherCallAppliesNothing` | packages/database/src/migrations/MigrationEngine.ts:152-194 | After a success a further call with the same set succeeds, counts zero and changes nothing, whatever interrupts. |
| `MigrationEngine.ApplyKeepsPrefixes` | packages/database/src/migrations/MigrationEngine.ts:146-194 | At every point of a call the applied versions are prefixes and everything gone past is applied. |
| `MigrationEngine.EarlierVersionsFirst` | packages/database/src/migrations/MigrationEngine.ts:112-124 | In the sorted order of a gapless set, all lower versions of an owner stand before any of its versions. |
| `MigrationEngine.Resumes` | packages/database/src/migrations/MigrationEngine.ts:152-194 | A call starting where an undisturbed one would stand after k migrations ends at a point that one passes, and at its end if it succeeds. |
| `MigrationEngine.AttemptsReach` | packages/database/src/migrations/MigrationEngine.ts:152-194 | Any number of interrupted calls leave the database at a point an undisturbed call passes. |
| `MigrationEngine.EffectsInOrder` | packages/database/src/migrations/MigrationEngine.ts:165-194 | As far as a call gets without error it has run the pending statements, each once and in order, and counted those migrations. |
| `MigrationEngine.GonePast` | packages/database/src/migrations/MigrationEngine.ts:152-194 | Every migration a call has gone past is recorded under its own checksum. |
| `MigrationEngine.AppliedStays` | packages/database/src/migrations/MigrationEngine.ts:152-194 | A recorded migration is never dropped or rewritten, and only supplied ones are added. |
| `MigrationEngine.StepApplies` | packages/database/src/migrations/MigrationEngine.ts:152-193 | One migration adds its own record or nothing, and a failing one leaves data and records alone. |
| `MigrationEngine.SortedSupplies` | packages/database/src/migrations/MigrationEngine.ts:146-149 | Sorting by owner and version permutes the set and puts it in that order. |
| `MigrationEngine.OrderIsOrdering` | packages/database/src/migrations/MigrationEngine.ts:146-149 | Owner collation and then version is a total order, also when different owners collate as equal. |
| `MigrationEngine.CheckDefinitions` | packages/database/src/migrations/MigrationEngine.ts:60-110 | Passes exactly when every script is well-formed, new and has a statement; otherwise the first faulty one and its fault are reported. Versions are grouped by owner and statements kept by identity. |
| `MigrationEngine.CheckOwner` | packages/database/src/migrations/MigrationEngine.ts:112-115 | Passes exactly when one owner's versions leave none out; otherwise the version reported is the lowest missing one. |
| `MigrationEngine.CheckSequences` | packages/database/src/migrations/MigrationEngine.ts:112-125 | Passes exactly when no owner's versions leave one out below the highest; otherwise it reports the lowest missing version of the first supplied owner with a gap. |
| `MigrationEngine.FindRemoved` | packages/database/src/migrations/MigrationEngine.ts:127-145 | Finds an applied migration missing from the set exactly when some supplied owner has one, and then the first such in the order of the read, by owner and version. |
| `MigrationEngine.MigrationEngine.ApplyMigrations` | packages/database/src/migrations/MigrationEngine.ts:56-198 | Succeeds exactly when the specified call does, leaves exactly its database, returns its count or its error; a set at fault changes nothing and the error names a fault it has. |
| `MigrationEngine.RunStatements` | packages/database/src/migrations/MigrationEngine.ts:165-177 | Returns data exactly if uninterrupted and each statement, run once and in order, succeeds, and then what the last leaves; nothing otherwise. |
| `TaskQueueRuns.FailureReportIsAtomic` | packages/tasks/src/queue/TaskQueueService.ts:383-431 | Over every interleaving, the separate read and conditional write of a failure report act as one atomic step at the moment of the write, and then the task was running in the attempt read all along; or they do nothing. |
| `TaskQueueRuns.AttemptsBoundedByRecoveries` | packages/tasks/src/queue/TaskQueueService.ts:298-313 | In every run a task's attempt count is at most its maximum plus the number of times it was recovered. |
| `TaskQueueRuns.RecoveriesAreCounted` | packages/tasks/src/queue/TaskQueueService.ts:471-488 | The recoveries a run counts for a task are exactly the times it went back from running to pending by one. |
| `TaskQueueRuns.PassesMaximumExactlyWhen` | packages/tasks/src/queue/TaskQueueService.ts:471-488 | In every run a task has counted more attempts than its maximum if and only if it was recovered with none left and claimed again after that. |
| `TaskQueueRuns.AttemptBoundIsReached` | packages/tasks/src/queue/TaskQueueService.ts:298-313 | For every valid policy and every number of recoveries there is a run in which a task recovered that often has counted its maximum plus that many attempts. |
| `TaskQueueRuns.ClaimsNeverRepeat` | packages/tasks/src/queue/TaskQueueService.ts:298-313 | In every run no task is handed out twice with the same attempt number. |
| `TaskQueueRuns.OneActiveTaskPerKey` | packages/tasks/src/queue/TaskQueueService.ts:187-245 | In every run at most one pending or running task holds a given unique key. |
| `TaskQueueRuns.TerminalStatesAreFinal` | packages/tasks/src/queue/TaskQueueService.ts:349-357 | Rows are never removed, and a completed, failed or cancelled row never changes again. |
| `TaskQueueRuns.SameAttemptThroughout` | packages/tasks/src/queue/TaskQueueService.ts:409-431 | A task running in one attempt at two moments was running in that attempt at every moment between. |
| `TaskQueueRuns.OwnAttemptUnlessReclaimed` | packages/tasks/src/queue/TaskQueueService.ts:298-313 | A task's attempt count is still the one a worker claimed if and only if no claim of it came between. |
| `TaskQueueRuns.StaleSuccessSettlesNewerAttempt` | packages/tasks/src/queue/TaskQueueService.ts:349-357 | Because reports name only the task, a run exists in which a worker whose task was recovered and claimed again settles the newer attempt. |
| `TaskQueueRuns.AttemptMovesByClaim` | packages/tasks/src/queue/TaskQueueService.ts:298-313 | Of all statements only a claim that takes the task changes its attempt count, by exactly one. |
| `TaskQueueRuns.StepEvolves` | packages/tasks/src/queue/TaskQueueService.ts:349-488 | What any one statement may do to any one row. |
| `TaskQueueRuns.RunInvariant` | packages/tasks/src/queue/TaskQueueService.ts:131-488 | The table, the attempt bounds, the claim log and the open reports agree after every step of every run. |
| `TaskQueueRuns.ReportsPersist` | packages/tasks/src/queue/TaskQueueService.ts:383-392 | What a report read stays what it acts on, whatever others do meanwhile. |
| `TaskQueue.TaskQueueService.Enqueue` | packages/tasks/src/queue/TaskQueueService.ts:131-260 | An invalid definition, blank texts, policy, timeout or payload, changes nothing; the one active task under the key is returned as it is, or an error if its payload does not parse; otherwise the new pending row is inserted unless the table at the insertion holds a competitor's, whose task, if still active at the second look, is then returned likewise. An empty key is not looked up, yet the index still refuses it. |
| `TaskQueue.TaskQueueService.ClaimNextBatch` | packages/tasks/src/queue/TaskQueueService.ts:274-337 | Claims earliest-due pending tasks up to the limit, each once, and returns those whose payload parses; the others are failed. |
| `TaskQueue.TaskQueueService.ReadPayloads` | packages/tasks/src/queue/TaskQueueService.ts:315-336 | Of the claimed rows exactly those with a readable payload are returned, in order, and exactly the others are quarantined. |
| `TaskQueue.TaskQueueService.MarkCompleted` | packages/tasks/src/queue/TaskQueueService.ts:349-358 | Completes a running task and changes nothing otherwise. |
| `TaskQueue.TaskQueueService.MarkFailed` | packages/tasks/src/queue/TaskQueueService.ts:375-433 | Undisturbed, reschedules or fails a running task as the retry decision says, and reports a retry exactly when it rescheduled. |
| `TaskQueue.TaskQueueService.CancelTask` | packages/tasks/src/queue/TaskQueueService.ts:446-455 | Cancels a pending or running task and changes nothing otherwise. |
| `TaskQueue.TaskQueueService.RecoverHangingTasks` | packages/tasks/src/queue/TaskQueueService.ts:471-488 | Returns exactly the tasks running since the cutoff or longer to pending, due at once, and counts them; attempts are not reset. |
| `TaskRows.ClaimsEarliestDue` | packages/tasks/src/queue/TaskQueueService.ts:298-313 | A claim takes pending tasks due by now and of a wanted type, each once, earliest first, up to the limit, and leaves out none due before one it takes. |
| `TaskRows.ClaimedRows` | packages/tasks/src/queue/TaskQueueService.ts:298-313 | Claimed rows run from now on with one attempt more; all other columns and rows stay. |
| `TaskRows.HandedOut` | packages/tasks/src/queue/TaskQueueService.ts:315-336 | Of the claimed tasks exactly those whose payload parses are handed out. |
| `TaskRows.UnreadableAreFailed` | packages/tasks/src/queue/TaskQueueService.ts:327-333 | The others are failed with the message, if they still run; nothing else changes. |
| `TaskRows.RecoveredRows` | packages/tasks/src/queue/TaskQueueService.ts:471-488 | Tasks running since the cutoff or longer are pending again, due at once, attempts kept; all other rows stay. |
| `TaskRows.ReportedRow` | packages/tasks/src/queue/TaskQueueService.ts:404-431 | A report settles a row only if it runs in the attempt that was read: pending again at the decided time if the error is transient and attempts remain, failed otherwise. |
| `TaskRows.FoundUnderKey` | packages/tasks/src/queue/TaskQueueService.ts:187-245 | A row is found under a non-empty key if it has it and is pending or running; an insertion is let through exactly if no such row has its key. |
| `TaskRetry.RetriesWhileAttemptsRemain` | packages/tasks/src/retry/TaskRetryCalculator.ts:49-79 | A retry is decided exactly when attempts remain and the error is none of the platform's, or retryable and of no permanent class. |
| `TaskRetry.NextBackoff` | packages/tasks/src/retry/TaskRetryCalculator.ts:82-83 | Below the bound each wait is the one before times the multiplier, up to the bound. |
| `TaskRetry.FirstBackoff` | packages/tasks/src/retry/TaskRetryCalculator.ts:82-83 | The first wait is the initial one, up to the bound. |
| `TaskRetry.JitterIsEven` | packages/tasks/src/retry/TaskRetryCalculator.ts:84-86 | The draw moves the wait evenly from one end of the jitter band to the other. |
| `TaskRetry.WaitIsNearest` | packages/tasks/src/retry/TaskRetryCalculator.ts:81-87 | The wait is the whole millisecond nearest to backoff times jitter, halves going up. |
| `TaskRetry.DelayStaysInBand` | packages/tasks/src/retry/TaskRetryCalculator.ts:81-87 | The delay lies within the jitter band around the bounded backoff, to half a millisecond, and within the band of the maximum delay. |
| `TaskRetry.DelaysGrow` | packages/tasks/src/retry/TaskRetryCalculator.ts:81-87 | Without jitter and with a multiplier of at least one, later attempts never wait less. |
| `TaskRetry.BackoffBounds` | packages/tasks/src/retry/TaskRetryCalculator.ts:82-83 | The backoff lies between zero and the maximum delay. |
| `TaskRetry.BackoffGrows` | packages/tasks/src/retry/TaskRetryCalculator.ts:82-83 | With a multiplier of at least one the backoff never shrinks from attempt to attempt. |
| `Transactions.NativeRefinesEager` | packages/database/src/connection/NativeDatabaseConnection.ts:132-220 | The refinement: where no write can fail, or none that the eager run comes to does, both drivers leave the same database and report the same success, which is the callback's own, however savepoints nest, throw and are caught. |
| `Transactions.UncaughtWritesAgree` | packages/database/src/connection/NativeDatabaseConnection.ts:132-220 | Where, seen from the callback alone, no handler stands around a body that has writes to collect, both drivers leave the same database and report the same success, whatever the writes do and whichever of them fail. |
| `Transactions.UncaughtExactlyWhenNeverParting` | packages/database/src/connection/NativeDatabaseConnection.ts:179-206 | For callbacks whose savepoints throw nothing of their own that condition is exact: it holds if and only if the two runs stay together for every meaning of the writes and every database. |
| `Transactions.CaughtWriteCanFail` | packages/database/src/connection/NativeDatabaseConnection.ts:179-206 | Where it does not hold, some one write, failing after some others, makes the runs part. |
| `Transactions.RunsStayTogether` | packages/database/src/connection/NativeDatabaseConnection.ts:174-192 | Where no write fails, collecting ends as the eager run does at every savepoint. |
| `Transactions.DriversAgreeExactly` | packages/database/src/connection/NativeDatabaseConnection.ts:146-208 | Follow both drivers' runs side by side. If no body gets past a failure only to throw where collecting goes on into a handler, the drivers leave the same database and the same success if and only if their runs never part or the eager callback throws; and where they part the native driver fails and keeps the database. All programs, databases and writes. |
| `Transactions.NativeAgreesWithEager` | packages/database/src/connection/NativeDatabaseConnection.ts:146-208 | While the runs never part the two drivers leave the same database and agree on success, failing savepoints caught or not. |
| `Transactions.CollectFollowsEager` | packages/database/src/connection/NativeDatabaseConnection.ts:174-192 | Step by step, while the runs stay together: collecting ends as the eager run does and the collected list replays to its database, or to a failure where a write failed. |
| `Transactions.UnseenFailureStopsReplay` | packages/database/src/connection/NativeDatabaseConnection.ts:203-206 | Once a write has failed that collecting could not see, what was collected throws or does not replay. |
| `Transactions.StraightBodiesNeverSurvive` | packages/database/src/connection/NativeDatabaseConnection.ts:179-192 | Where, seen from the callback alone, no savepoint's body throws anything of its own, the guard of the exact condition holds for every database and every meaning of the writes. |
| `Transactions.SurvivorsDecideNothing` | packages/database/src/connection/NativeDatabaseConnection.ts:179-192 | Outside that guard neither verdict is fixed: two callbacks on which both drivers commit, once different databases and once the same. |
| `Transactions.CaughtWriteFailureParts` | packages/database/src/connection/NativeDatabaseConnection.ts:203-206 | A write, then a failing one caught by its own savepoint: the eager driver keeps the first, the native one nothing. |
| `Transactions.FailedTransactionsChangeNothing` | packages/database/src/connection/MemoryDatabaseConnection.ts:133-141 | An uncaught failure leaves the database unchanged under either driver. |
| `Transactions.NativeClient.Run` | packages/database/src/connection/NativeDatabaseConnection.ts:179-192 | Running a callback collects exactly the operations of its savepoints that completed, in order. |
| `Transactions.NativeConnection.RunOperations` | packages/database/src/connection/NativeDatabaseConnection.ts:203-206 | The collected operations apply all together or not at all. |
| `Transactions.NativeConnection.Transaction` | packages/database/src/connection/NativeDatabaseConnection.ts:132-220 | The buffered transaction leaves the specified database and reports the specified success. |
| `Transactions.MemoryConnection.Release` | packages/database/src/connection/MemoryDatabaseConnection.ts:196-202 | Releasing drops the latest savepoint of the name and those after it, and keeps the data. |
| `Transactions.MemoryConnection.RollbackTo` | packages/database/src/connection/MemoryDatabaseConnection.ts:201-201 | Rolling back restores the savepoint's data and keeps the savepoint. |
| `Transactions.MemoryConnection.Run` | packages/database/src/connection/MemoryDatabaseConnection.ts:147-210 | Savepoints by counter-made names implement nested all-or-nothing blocks, and leave no savepoint behind. |
| `Transactions.MemoryConnection.Transaction` | packages/database/src/connection/MemoryDatabaseConnection.ts:119-145 | The eager transaction leaves the specified database and reports the specified success, with nothing left open. |
| `OutboxRuns.SentRowWasAccepted` | packages/tasks/src/sync/OutboxSyncWorker.ts:149-184 | In every interleaving of any workers with stale and overlapping batches, late, repeated and lost deliveries and workers that stop anywhere: a sent row has behind it one worker that loaded it pending, dispatched it, got the reply to that dispatch after a peer accepted that message, and recorded the success while the row was pending, in that order. |
| `OutboxRuns.RowFollowsLog` | packages/sync/src/outbox/OutboxService.ts:129-163 | In every interleaving the log of recorded outcomes tells each row: sent exactly when a success was recorded before five failures, failed exactly when five failures came first, pending otherwise, with as many attempts as failures counted. |
| `OutboxRuns.SettledRowsAreFinal` | packages/sync/src/outbox/OutboxService.ts:129-163 | Rows are never removed, and a sent or failed row never changes again. |
| `OutboxRuns.StepOnRow` | packages/sync/src/outbox/OutboxService.ts:129-163 | Of all steps of all workers only the two recording ones touch a row, and only a pending one. |
| `OutboxRows.PassHandlesFirstPart` | packages/tasks/src/sync/OutboxSyncWorker.ts:149-184 | A pass handles a first part of its batch, up to an abort or a failure it cannot record: each entry is sent if accepted and recorded and counts a failure otherwise, no other row changes, and the tallies are right. |
| `OutboxRows.BatchIsOldestPending` | packages/sync/src/outbox/OutboxService.ts:169-187 | A batch holds the organisation's pending rows, oldest first, up to the limit, none left out that is older. |
| `OutboxRows.FailedRow` | packages/sync/src/outbox/OutboxService.ts:145-163 | A failure counts one attempt and fails the row when that makes the limit; other columns and rows stay. |
| `OutboxReach.EnvelopeCanBeSent` | packages/tasks/src/sync/OutboxSyncWorker.ts:149-184 | For every envelope there is a run in which a peer accepts it and it is recorded as sent. |
| `OutboxReach.EnvelopeCanFail` | packages/tasks/src/sync/OutboxSyncWorker.ts:149-184 | For every envelope there is a run in which five refusals fail it for good. |
| `OutboxReach.PassTakesNextEntry` | packages/tasks/src/sync/OutboxSyncWorker.ts:149-184 | In every run, between two loads a worker hands over the entries of its batch one after the other, none twice and none left out. |
| `Outbox.PassSendsOnlyAccepted` | packages/tasks/src/sync/OutboxSyncWorker.ts:153-184 | Whatever the replies, a pass marks as sent only envelopes the peer accepted and keeps the attempt limit. |
| `Outbox.StopsForGood` | packages/tasks/src/sync/OutboxSyncWorker.ts:154-180 | After an abort, or a failure that could not be recorded, nothing more of the batch is touched. |
| `Outbox.OutboxService.Enqueue` | packages/sync/src/outbox/OutboxService.ts:56-124 | An envelope that fails its checks is refused; a new one becomes a pending row without attempts; a repeated envelope id is refused and changes nothing. |
| `Outbox.OutboxService.RecordSent` | packages/sync/src/outbox/OutboxService.ts:129-137 | A pending row becomes sent at the given time; any other is left alone. |
| `Outbox.OutboxService.RecordFailed` | packages/sync/src/outbox/OutboxService.ts:145-163 | A pending row counts an attempt and fails at the limit; a limit that is not positive changes nothing. |
| `Outbox.OutboxService.PendingBatch` | packages/sync/src/outbox/OutboxService.ts:169-187 | Refuses a blank organisation and limits outside 1 to 50; otherwise returns the oldest pending rows of that organisation, oldest first, none left out that is older than one taken, or reports that one of such rows no longer checks against its envelope. |
| `Outbox.OutboxService.DispatchBatch` | packages/tasks/src/sync/OutboxSyncWorker.ts:149-184 | The loop with its tallies leaves exactly the rows of the specified pass and stops at an abort. |
| `Outbox.OutboxService.Handle` | packages/tasks/src/sync/OutboxSyncWorker.ts:121-202 | One worker cycle: which refusals and stops happen, over which batch, with which rows after, when the cursor is written, and all-failed exactly when something failed and nothing was sent. |
| `Inbox.AppliedAtMostOnce` | packages/sync/src/inbox/InboxService.ts:147-210 | In every run with repeated and reordered deliveries and non-overlapping passes, each envelope is applied at most once and only if its signature was verified. |
| `InboxRows.SettledBatch` | packages/sync/src/inbox/InboxService.ts:184-207 | After a pass every row of its batch records its own outcome, applied at the time given, in conflict or failed, and no other column or row has changed. |
| `InboxRows.PassCoversPending` | packages/sync/src/inbox/InboxService.ts:172-178 | A pass covers exactly the pending verified rows, each once, in the order of their timestamp texts. |
| `InboxRows.AnsweredExactlyWhen` | packages/sync/src/inbox/InboxService.ts:112-138 | A delivery is answered exactly if it is the first under its id, or has the stored signer and signature and is verified. |
| `InboxRows.PassCanBeMade` | packages/sync/src/inbox/InboxService.ts:147-210 | Whenever no pass is under way one can be begun and finished, and applies every pending verified envelope. |
| `Inbox.FirstDeliveryIsKept` | packages/sync/src/inbox/InboxService.ts:85-112 | The first row stored under an envelope id stays, whatever is delivered under that id later. |
| `Inbox.PassFollowsClocks` | packages/sync/src/inbox/InboxService.ts:175-178 | Where timestamps fit their padded widths a pass never applies a later clock before an earlier one. |
| `TextOrder.TextIsOrdering` | packages/sync/src/inbox/InboxService.ts:177-177 | Ordering by timestamp text is a total order. |
| `Inbox.PassSettlesItsBatch` | packages/sync/src/inbox/InboxService.ts:184-207 | A pass that reaches its end leaves nothing of its batch pending, whatever is received meanwhile. |
| `Inbox.RunInvariant` | packages/sync/src/inbox/InboxService.ts:56-210 | After every step the applied log, the rows and the queue of the pass agree. |
| `Inbox.InboxService.Receive` | packages/sync/src/inbox/InboxService.ts:56-139 | Inserts only if the id is new, and answers with the stored row exactly when signer and signature agree and the delivery is verified or is the stored one; otherwise a collision. |
| `Inbox.InboxService.SettleBatch` | packages/sync/src/inbox/InboxService.ts:184-207 | Each row gets the status its application came to, and the three counts are right. |
| `Inbox.InboxService.ApplyPending` | packages/sync/src/inbox/InboxService.ts:147-210 | A pass covers all pending verified rows in text order and leaves the specified rows and counts. |
| `DeviceKey.EveryoneReturnsTheStoredKey` | crates/identity-core/src/provider.rs:58-91 | In every interleaving of any number of processes, failing or dying anywhere, all successful calls return the one stored 32-byte seed. |
| `DeviceKeyProgress.StoppedFor` | crates/identity-core/src/provider.rs:235-354 | In every run a process that has stopped died, had a write or link fail, met something at the path that is no key of 32 bytes, or found ten names taken. |
| `DeviceKeyProgress.NobodyIsStuck` | crates/identity-core/src/provider.rs:58-91 | In every run a process that has neither returned nor stopped has a step to take that is no mishap. |
| `DeviceKeyProgress.StepsAreBounded` | crates/identity-core/src/provider.rs:58-91 | In every run a process takes at most 152 steps, whatever the others do, so it returns or stops. |
| `DeviceKeyProgress.StoredKeyIsReturned` | crates/identity-core/src/provider.rs:74-76 | From any start with a complete key at the path, a process reads it and returns it. |
| `DeviceKeyProgress.DrawnKeyIsStored` | crates/identity-core/src/provider.rs:78-82 | From any start with nothing there, a process returns the key it drew, and that is the one stored. |
| `DeviceKeyProgress.LoserReturnsTheWinnersKey` | crates/identity-core/src/provider.rs:83-91 | Of two processes that create the key at once, the one to link second returns the other's. |
| `DeviceKey.PublishedKeyNeverChanges` | crates/identity-core/src/provider.rs:305-354 | Once a key is at the path, path and content never change. |
| `DeviceKey.ExistingKeyIsKept` | crates/identity-core/src/provider.rs:74-76 | A key present at the start is the one every successful call returns. |
| `DeviceKey.RunInvariant` | crates/identity-core/src/provider.rs:235-354 | In every reachable state: a published file is complete, files in hand are private, returned seeds are the published one. |
| `DeviceKey.StepKeepsOthers` | crates/identity-core/src/provider.rs:332-348 | No step touches a published key or a file in another process's hands. |
| `DeviceKey.OwnerMoves` | crates/identity-core/src/provider.rs:315-348 | A temporary file is fresh when taken and is let go of as it is linked; only linking can publish. |
| `SessionStore.LogoutIsFinal` | crates/native-core/src/session.rs:39-89 | In every interleaving, once a logout has finished no authentication begun before it took its number writes a session, and the session in place is never such a one's. |
| `SessionProgress.SessionWasVerified` | crates/native-core/src/session.rs:39-71 | In every run the session in place has the principal that its own authentication verified. |
| `SessionProgress.NoDeadlock` | crates/native-core/src/session.rs:39-89 | In every run a call that is not over can take a step, or waits for the lock while its holder can. |
| `SessionProgress.StepsCountDown` | crates/native-core/src/session.rs:39-89 | Every step brings its call nearer the end, five steps at most. |
| `SessionStore.CommitsInOrder` | crates/native-core/src/session.rs:53-71 | In every interleaving commits happen in strictly increasing generation order. |
| `SessionStore.LetThroughUnlessSuperseded` | crates/native-core/src/session.rs:64-69 | An authentication passes its check if and only if no other call took a generation since it began. |
| `SessionStore.NewerBeginMayPrecedeOlderWrite` | crates/native-core/src/session.rs:64-70 | The check and the write are two steps: a run in which a newer authentication begins between them and the older session is still set. |
| `SessionStore.CounterStandsStill` | crates/native-core/src/session.rs:44-47 | The generation stays the same over a stretch of a run exactly when no authentication begins and no logout bumps it. |
| `SessionStore.RunInvariant` | crates/native-core/src/session.rs:39-89 | In every reachable state: lock holders are unique, generations taken differ, and a writer's is above the last commit's and the last logout's. |
| `SessionStore.RunMovesOn` | crates/native-core/src/session.rs:39-89 | Along a run the generation, the last commit and the last logout never fall, and a call keeps its generation. |
| `SessionStore.NativeSessionStore.Authenticate` | crates/native-core/src/session.rs:39-51 | Undisturbed, the outcome is the password check's and only a success changes the session. |
| `SessionStore.NativeSessionStore.CommitAuthentication` | crates/native-core/src/session.rs:53-71 | Sets the session exactly when the generation taken is still the current one; otherwise reports superseded and changes nothing. |
| `SessionStore.NativeSessionStore.CurrentPrincipal` | crates/native-core/src/session.rs:73-79 | Succeeds exactly while a session is set, with its principal. |
| `SessionStore.NativeSessionStore.Logout` | crates/native-core/src/session.rs:81-89 | Clears the session and takes a generation. |
| `CsvExport.ToCsv` | packages/import-export/src/engine/ExportEngine.ts:55-76 | Succeeds exactly when columns exist and their sanitised headers are non-blank and distinct; then an RFC 4180 reader gives back exactly the header row and the grid for all cell texts, a reader that allows a final line break does so exactly unless the last cell of a single column is empty, and no string reads as a formula. |
| `CsvExport.PrintReadsBack` | packages/import-export/src/engine/ExportEngine.ts:55-76 | For all rows of at least one cell, with commas, quotes, CR and LF anywhere, reading the printed text returns the rows, every unquoted CRLF taken as a separator. |
| `CsvShortest.PrintIsShortest` | packages/import-export/src/engine/ExportEngine.ts:55-114 | Of all texts that read as the grid the export is the shortest and the only one so short: nothing is quoted or doubled without need. |
| `CsvExport.LenientReadsBackUnlessLastRowEmpty` | packages/import-export/src/engine/ExportEngine.ts:75-75 | A reader that takes a final CRLF as an ending loses exactly a last row of one empty cell. |
| `CsvExport.RowReadsBack` | packages/import-export/src/engine/ExportEngine.ts:57-73 | A printed row followed by a line break or the end reads back, and the rest is left over. |
| `CsvExport.FieldReadsBack` | packages/import-export/src/engine/ExportEngine.ts:104-114 | An escaped field followed by anything that can end a field reads back. |
| `CsvExport.QuotedReadsBack` | packages/import-export/src/engine/ExportEngine.ts:111-111 | Doubling quotes inside quotes is inverted by the reader. |
| `CsvExport.EmptyPrint` | packages/import-export/src/engine/ExportEngine.ts:55-76 | Only a single empty cell prints as nothing. |
| `CsvExport.SanitizedIsNoFormula` | packages/import-export/src/engine/ExportEngine.ts:116-118 | A sanitised text never reads as a formula, sanitising twice is sanitising once, and a harmless text is left as it was. |
| `CsvExport.FormulaMeansSignAfterBlank` | packages/import-export/src/engine/ExportEngine.ts:117-117 | The guard fires exactly when an =, +, - or @ comes after nothing but white space. |
| `CsvExport.ValidateDefinition` | packages/import-export/src/engine/ExportEngine.ts:6-34 | No error exactly when there are columns and all headers are fine; otherwise the first column at fault decides the error. |
| `CivilDate.CivilIsInverse` | crates/background-core/src/scheduler.rs:212-229 | Every i64 day number whose first sum fits, negative ones included, gives a valid Gregorian date, and counting days from 1970-01-01 to that date gives the number back. |
| `CivilDate.DayNumberIsInverse` | crates/background-core/src/scheduler.rs:212-229 | Converting the day number of any date in range gives that date. |
| `CivilDate.NextNumberIsNextDay` | crates/background-core/src/scheduler.rs:212-229 | n + 1 is the calendar successor of n, over month ends, leap days and year ends. |
| `CivilDate.NumbersFollowDates` | crates/background-core/src/scheduler.rs:212-229 | Later day numbers are later dates. |
| `CivilDate.EveryReadingHasADate` | crates/background-core/src/scheduler.rs:200-208 | Every unsigned 64-bit number of seconds is in range and gives no date before 1970. |
| `CivilDate.CountsEveryDay` | crates/background-core/src/scheduler.rs:211-211 | The day count used as reference is zero at 1970-01-01 and grows by one with every calendar day. |
| `CivilDate.EarlierIsSmaller` | crates/background-core/src/scheduler.rs:211-211 | The reference count orders dates as the calendar does, so a date is known by its number. |
| `CivilDate.YearOfEra` | crates/background-core/src/scheduler.rs:220-223 | The year-of-era formula finds, for each of the 146097 days of an era, the March-based year it falls in, and a 366th day only where the next year is leap. |
| `CivilDate.MonthOfYear` | crates/background-core/src/scheduler.rs:223-227 | The 153/5 month arithmetic gives a valid month and day for every day of a March-based year. |
| `CivilDate.DateInEraCounts` | crates/background-core/src/scheduler.rs:219-228 | An era and a day of it give a valid date whose count is that day. |
| `CivilDate.YearLength` | crates/background-core/src/scheduler.rs:220-221 | The reference count gives a year 366 days exactly when it is leap. |
| `JsonSize.ValidateSqlRequest` | crates/native-core/src/database.rs:1527-1574 | Accepts exactly the requests within every limit; then statement and serialised parameters together take no more bytes than the total returned, itself at most 10 MiB. An integer beyond i64 is reported exactly when it comes before any other fault. |
| `JsonSize.EstimateJsonValueBytes` | crates/native-core/src/database.rs:1577-1616 | With saturation and early exits, returns the value's size bound exactly when it is at most 1 MiB and the nesting at most 64, and nothing otherwise. |
| `JsonSize.SerializedFits` | crates/native-core/src/database.rs:1577-1616 | The serialised JSON of any value, escapes and separators included, is no longer than the bound. |
| `JsonSize.SerializedSizeFits` | crates/native-core/src/database.rs:1542-1571 | All serialised parameters together are no longer than the sum of their bounds. |
| `JsonSize.ParametersAddUp` | crates/native-core/src/database.rs:1542-1571 | The serialised size and the estimate of a list of parameters are what is left after adding up one parameter after the other. |
| `JsonSize.EscapesFit` | crates/native-core/src/database.rs:1587-1587 | A printed string takes at most six bytes for each of its UTF-8 bytes, and no fewer than those. |
| `JsonSize.SizeByParts` | crates/native-core/src/database.rs:1582-1612 | The bound constructor by constructor: six bytes a byte of text and key, digits as they are, brackets, quotes, colons and commas counted. |
| `JsonSize.SizeAtMostSixfold` | crates/native-core/src/database.rs:1577-1616 | The bound is at most six times what the value takes. |
| `JsonSize.SizeIsReached` | crates/native-core/src/database.rs:1587-1587 | Control characters take all the bytes allowed for, so six a byte cannot be lowered. |
| `CanonicalJson.SameBytesExactlyWhenSame` | packages/sync-protocol/src/envelope/SyncEnvelopeBuilder.ts:39-43 | Two plain JSON values get the same canonical bytes if and only if they are equal up to member order at every nesting level. |
| `CanonicalJson.SameMeansEqualCanonical` | packages/sync-protocol/src/envelope/SyncEnvelopeBuilder.ts:152-173 | Member order never shows: values equal up to it sort to the same value. |
| `CanonicalJson.EqualCanonicalMeansSame` | packages/sync-protocol/src/envelope/SyncEnvelopeBuilder.ts:152-173 | Nothing else is lost: values that sort to the same value are equal up to member order. |
| `CanonicalJson.CanonicalIsIdempotent` | packages/sync-protocol/src/envelope/SyncEnvelopeBuilder.ts:152-173 | Sorting the keys of a sorted value changes nothing. |
| `CanonicalJson.SortedKeys` | packages/sync-protocol/src/envelope/SyncEnvelopeBuilder.ts:152-173 | Rebuilding each object by defining its keys in sorted order, as ECMAScript places them, gives exactly the canonical value. |
| `CanonicalJson.CanonicalIsValid` | packages/sync-protocol/src/envelope/SyncEnvelopeBuilder.ts:152-173 | Sorting keeps keys distinct and numbers finite. |
| `CanonicalJson.MembersAsEnumerated` | packages/sync-protocol/src/envelope/SyncEnvelopeBuilder.ts:152-173 | In a canonical object array indices stand first, by number, then the other keys, by code units. |
| `CanonicalJson.IndicesAreNumberTexts` | packages/sync-protocol/src/envelope/SyncEnvelopeBuilder.ts:163-168 | A key is an array index exactly if it is what a number below 2^32 - 1 prints as. |
| `CanonicalJson.KeysAreOrdered` | packages/sync-protocol/src/envelope/SyncEnvelopeBuilder.ts:159-169 | The enumeration order of keys is total and only equal keys tie. |
| `CanonicalJson.AlphabeticalExactlyWhenIndicesInPlace` | packages/sync-protocol/src/envelope/SyncEnvelopeBuilder.ts:32-38 | The members come out in alphabetical order, as documented, if and only if every array-index key stands, by code units, before all other keys and after none but smaller indices. |
| `CanonicalJson.IndicesAreNotAlphabetical` | packages/sync-protocol/src/envelope/SyncEnvelopeBuilder.ts:37-38 | An input where it is not: key 9 stands before key 10. |
| `CanonicalJson.KeysInOrder` | packages/sync-protocol/src/envelope/SyncEnvelopeBuilder.ts:159-159 | Sorting the keys permutes the members and puts them in code-unit order. |
| `JsonText.PrintReadsBack` | packages/sync-protocol/src/envelope/SyncEnvelopeBuilder.ts:41-41 | Every plain value reads back from what JSON.stringify prints, lone surrogates included, so different values print differently. |
| `JsonShortest.PrintIsShortest` | packages/sync-protocol/src/envelope/SyncEnvelopeBuilder.ts:41-41 | Of all texts without white space that section 2 to 7 readers take for the value, raw control characters refused, what is printed is the shortest, and no other is as short. |
| `JsonShortest.CharsAreShortest` | packages/sync-protocol/src/envelope/SyncEnvelopeBuilder.ts:41-41 | The same for the contents of a string, escapes included. |
| `JsonText.ValueReadsBack` | packages/sync-protocol/src/envelope/SyncEnvelopeBuilder.ts:41-41 | A printed value followed by anything that cannot continue a number reads back, and the rest is left over. |
| `JsonText.CharsReadBack` | packages/sync-protocol/src/envelope/SyncEnvelopeBuilder.ts:41-41 | Escaped string contents read back code unit by code unit. |
| `JsonText.MembersReadBack` | packages/sync-protocol/src/envelope/SyncEnvelopeBuilder.ts:41-41 | Printed members read back with their keys and order. |
| `JsonText.ItemsReadBack` | packages/sync-protocol/src/envelope/SyncEnvelopeBuilder.ts:41-41 | Printed items read back in order. |
| `SyncOperation.SignedExactlyWhenSame` | packages/sync-protocol/src/envelope/SyncEnvelopeBuilder.ts:39-43 | Signer and verifier agree: an operation gets the same verdict and the same bytes as another value if and only if the two are equal up to member order at every nesting level. |
| `SyncOperation.VersionsArePositiveIntegers` | packages/sync-protocol/src/envelope/SyncEnvelopeBuilder.ts:214-221 | A version is what a positive integer up to 2^53 - 1 prints as. |
| `SyncOperation.SameOperations` | packages/sync-protocol/src/envelope/SyncEnvelopeBuilder.ts:201-230 | Whether a value passes the checks of an operation does not depend on the order its members came in. |
| `SyncOperation.ValidateOperation` | packages/sync-protocol/src/envelope/SyncEnvelopeBuilder.ts:201-230 | No fault exactly for a record whose ten texts are present, not blank and at most 1024 units long, of a known type, with positive safe versions, a payload and a timestamp that parses; otherwise the first fault in the order of the checks. |
| `SyncOperation.Canonicalize` | packages/sync-protocol/src/envelope/SyncEnvelopeBuilder.ts:39-43 | Fails with the first fault exactly where there is one, and otherwise returns the UTF-8 of the printed canonical value. |
| `Utf8.EncodeIsInjective` | packages/sync-protocol/src/envelope/SyncEnvelopeBuilder.ts:42-42 | Different texts encode to different bytes. |
| `Utf8.ScalarReadsBack` | packages/sync-protocol/src/envelope/SyncEnvelopeBuilder.ts:42-42 | The bytes of a scalar value tell their number and the value. |
| `LoginLockout.GuessesAreBounded` | crates/native-core/src/database.rs:1100-1138 | From zero recorded failures, with a clock that does not run back and no success or credential reset, at most 5 + floor(T/300) passwords are checked for a user, T being the seconds from the first to the last check; other users, devices and statuses may change in any way between. |
| `LoginLockout.BoundIsReached` | crates/native-core/src/database.rs:1100-1138 | For every number of guesses, the first five at once and the rest 300 seconds apart, there is a run in which each is checked; from five on it reaches the bound, which so cannot be lowered. |
| `LoginLockout.RightPasswordRefusedWhileLocked` | crates/native-core/src/database.rs:1100-1117 | The right password from a valid device is refused exactly when at least five checks have failed and the last is less than 300 seconds ago. |
| `LoginLockout.GuessesSpreadOut` | crates/native-core/src/database.rs:1117-1138 | After k failed checks the count is k up to five; from the fifth on, the lock ends 300 seconds after the last check and the checks beyond lie 300 seconds apart. |
| `LoginLockout.JudgedByFields` | crates/native-core/src/database.rs:1074-1138 | Who is let in, locked out, refused or turned away, by the fields of user and device: active, in use, bound to no one else, not locked, password matching. |
| `LoginLockout.SettledByFields` | crates/native-core/src/database.rs:1117-1163 | A wrong password adds one to the count and from five on locks for 300 seconds, a right one clears both, and nothing else changes. |
| `LoginLockout.PermissionsAreExactlyGranted` | crates/native-core/src/database.rs:1140-1154 | The permissions listed are those, and only those, that some role given to the user within the user's own organisation, and belonging to it, carries, in the order of their names. |
| `LoginLockout.DurableDatabase.AuthenticateUser` | crates/native-core/src/database.rs:1039-1174 | Grants exactly on a match for an active user on a valid device who is not locked, with that user, device and organisation and all rows of the permission query, answers locked exactly when locked, and leaves exactly the specified count and lock. |
| `LoginLockout.DurableDatabase.SetCredential` | crates/native-core/src/database.rs:1018-1037 | A new credential clears count and lock; an unknown user changes nothing. |
| `Selection.SelectFirst` | packages/tasks/src/queue/TaskQueueService.ts:304-309 | Returns what SELECT with ORDER BY and LIMIT may: keys in order of rank, each once, none left out that ranks before one taken. |
| `Sorting.SortIsStable` | packages/feature-system/src/registry/DependencyResolver.ts:113-113 | The stable sort permutes, puts in order and keeps elements of equal rank in the order they came. |
| `Sorting.AscendingIsUnique` | packages/sync-protocol/src/envelope/SyncEnvelopeBuilder.ts:159-159 | Where different elements rank differently there is one way to put them in order. |

## Left out

- User interface, Tauri command wrappers, the native gateway, the peer-to-peer endpoint and the CLI: input and output only.
- Cryptography, password hashing and SQLite itself: uninterpreted outcomes and partial functions.
- Conflict strategies other than last-writer-wins, and the registry check of additive fields.
- TaskRetry.DelayStaysInBand: arithmetic over reals, so floating-point rounding and infinite intermediate powers are not modelled.
- TaskQueue.TaskQueueService.ClaimNextBatch: times are numbers, as in the outbox; up to the year 9999 that is the order of their texts (`IsoTime.TextOrderHoldsUntilYear10000`).
- Timers, abort controllers and logging around the queue in `TaskWorker`.
- SqlScript.SplitSqlScript: texts are sequences of characters, not of UTF-16 code units; no rule of the splitter depends on the difference.
- Transactions.DriversAgreeExactly: leaves open what happens where a body survives, as `SurvivorsDecideNothing` shows no verdict there; a write's outcome depends on the database and the write alone, a handler that catches a savepoint's error does not look at the error, and reads inside a transaction are not modelled; programs are well nested.
- MigrationEngine.CheckDefinitions: definitions of wrong runtime types are not representable, and identities are pairs instead of `owner:version` texts.
- MigrationEngine.RetriesEndAsOneRun: what a statement does depends on the data only; times of application are not recorded, and scripts do not write the migration table themselves.
- Inbox.AppliedAtMostOnce: passes do not overlap and do not die between applying and recording, as the code gives no protection there.
- DeviceKey.EveryoneReturnsTheStoredKey: a state machine over system calls on the unix path; permissions, symbolic links, directories at the path and deletion by others are not modelled, and the derived identity is a function of the seed.
- SessionStore.LogoutIsFinal: generations are unbounded numbers that do not wrap, and the lock is never poisoned.
- LoginLockout.DurableDatabase.AuthenticateUser: database errors are left out, and times are unbounded.
- CsvExport.ToCsv: values other than strings are given as the text they print as, and are not sanitised, as in the code; XLSX export and import are left out.
- CanonicalJson.SameBytesExactlyWhenSame: numbers are known by their printed text, which identifies 0 and -0; the size limit on built envelopes is left out.
- JsonSize.ValidateSqlRequest: numbers that are no integers are given by their printed text; the limit on operations in one transaction is left out.
- DependencyResolver.Resolve: manifest fields that play no part in resolving are left out.
- Services that check a permission and read or insert rows (widgets, notes, organisations, administration, audit), manifest field validation, namespace strings, pruning and the small sync state table: they would add only easy members.
