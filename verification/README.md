# Verified model of the outbound gRPC client and its migration scripts

The repository is an outbound gRPC client that is put together from layers (a retry loop, a circuit breaker, a chain of
interceptors, hand-written health messages) and a set of scripts that move and rewrite its own source tree. This project
models the parts that keep state or transform data, and proves what they promise: what a migration leaves behind whatever
step fails, how many attempts reach a peer and when, which states a breaker can be in under every interleaving, which
bytes decode to what, which events a call can report, and what the text tools do to a text.

`dafny verify dfyconfig.toml` checks the whole project.

## How it is built

| Module | Models |
|---|---|
| `SplitPlanning`, `SplitMigration` | `scripts/draft_std_spi_split.py`: from a reviewed map to a plan, and the transactional execution of a plan |
| `ApiMigration` | `scripts/migrate_api_packages.py`: planning, applying and undoing the package rename |
| `RetryClassifier`, `RetryLoop` | the retry classifier and the retry loop with its two tracks and its budget |
| `Breaker` | the breaker guard, on the documented state machine, for single calls and for every interleaving |
| `ResilientStack` | the breaker around the retry loop |
| `HealthWire`, `HealthCodec`, `HealthMessages` | the protobuf varints, the field grammar and reader, and the two health messages |
| `StreamLifecycle`, `CallLifecycle` | the events of a wrapped response stream and of a call through the interceptor chain |
| `Metadata`, `Interceptors` | the metadata extender, the pending call, and everything interceptors can do to it |
| `RenameCrate`, `BlankOut`, `GrpcFrame` | the crate rename, the blanking of Rust text, and the gRPC message framing |
| `Common`, `CallContract` | the vocabulary they share: results, bytes, errors |

Where the source changes things step by step, the model does too: classes hold the fields the source updates, loops are
loops, and each method is tied to a function or a relation on which the properties are proved.

What the source does not decide is an input: which file-system steps may fail, whether each one does and what a failed
one leaves, the checksum function, the readings of the clock, the pauses the backoff draws, the results of the wrapped
client, the order in which threads run, the rules by which metadata is accepted, which bytes are UTF-8, and which
characters are letters. The theorems hold for all of it, but for these hypotheses:

* The checksum has no collisions (`CollisionFree`) where the migration is said to keep bytes rather than checksums: in
  `RollbackConserves` and `MigratedIsRenameThenWrite`, and where a recognised or ready tree is said to hold what the plan
  says (`AlreadyAppliedIffMigrated`, `ReadyTreesAgree`). With a collision a copy may hold other bytes
  (`CollisionLosesBytes`).
* The clock does not run backwards and a pause is not cut short (`Monotone`) in `KeepsWithinBudget`. Otherwise a later
  attempt may get more time than an earlier one (`ClockThatRunsBackGrowsTimeouts`).
* `authorization` and `traceparent` are keys that metadata can be searched for (`KnowsKeys`) in what is said of the bearer
  and the trace-context interceptors: `BearerValues`, `BearerOutcome`, `TraceValues`, `TraceOutcome`,
  `OwnTraceStateGetsASecond`, `KnownChainAddsOnce` and `KnownChainTraces`. Otherwise a bearer interceptor adds a second `authorization` (`UnseenHeaderIsAddedAgain`).
* Messages have fewer than 2^64 bytes, as a 64-bit `usize` makes sure, wherever health messages are decoded.

A file tree is a finite map from path to bytes; the steps of an undo are taken to succeed.

## What the models show

* Whatever step of the split migration raises, the undo leaves, under a collision-free checksum, every move's bytes at
  exactly one of its two paths, every write target as it was and no temporary file; it restores the whole tree exactly if
  no source was gone yet (`Rollback`, `RollbackConserves`). A completed run equals, under such a checksum, renaming the
  files one by one and making the writes (`MigratedIsRenameThenWrite`).
* When no step fails, a split migration that gets past the refusals is carried out, unless its plan deletes a file that it
  expects not to be there: then the removal fails and the run is rolled back, always (`Worktree.Apply`). Such a write is
  accepted by every check of the map and of the plan.
* The package rename is all or nothing: it leaves the planned image or, after any failure, the tree it found. Its image
  passes its own last checks exactly when no file stood in the way (`ImageIsCleared`); a tracked file below `src/api/api`
  does, so a tree with one is planned and then rolled back (`NestedApiIsFoundWanting`, `NestedTreeIsPlanned`).
* The retry loop pauses once more after its last attempt exactly when that one is retried on a track with room and its
  pause fits (`PausesOncePerGap`). Without a deadline that takes the last allowed attempt (`PausesBetweenAttempts`); with
  one, the budget may also run out during any pause. The loop's "no recorded error" failure needs a classifier that
  retries a success (`ReturnsTheLastResult`, with a witness in `RetriedSuccessIsLost`), which the standard one never does
  (`StandardRunsReturnTheLast`).
* Applying the same plan of the split migration twice is a no-op (`MigratedIsRecognised`), and no tree on which anything
  is left to do is taken for one (`AlreadyAppliedIffMigrated`). Planning again from the same map is refused once anything
  has moved, because the map owns a path that is gone (`UsedMapIsRefused`).
* Breaker transitions are atomic as long as calls do not overlap between their read and their write-back. In one witness
  run two overlapping calls lose a failure and the circuit stays closed (`OverlapLosesAFailure`); in another a stale
  admission closes a circuit that has just opened (`StaleAdmissionClosesAnOpenCircuit`).
* Three failures of the source cannot occur: the refusal of a map with nothing to do
  (`scripts/draft_std_spi_split.py:301-302`), the varint that exceeds ten bytes and, after a key that was accepted, the
  unsupported wire type (`scm/main/transport-api/src/client/dto/health_proto_codec.rs:75` and `:100`).
* A caller's own `tracestate` without a `traceparent` gets a second value from a static source
  (`OwnTraceStateGetsASecond`).
* A message of 2^32 bytes or more is framed with its length cut to 32 bits, and comes back exactly when it is shorter
  (`DecodesIffItFits`); blanking keeps the lines of a text exactly when its strings are closed and its character literals
  stay on one line (`KeepsLinesIffTame`, with two texts that lose theirs in `UntameTextsLoseLines`).
* A completed stream whose trailers cannot be copied ends without the chain being told, even if the chain is not empty
  (`StreamEndIsTold`, with such a stream in `CompletedStreamIsUntold`).
* The end of a unary call goes untold exactly when the chain is empty and the reply's metadata cannot be copied, and then
  there is nobody to tell (`OneEndIsTold`).

## The breaker's machine

The crate with the transition function is not part of this model. `Breaker.Admit` and `Breaker.RecordOutcome` are the
machine that `scm/main/breaker-spi/src/lib.rs:9-22` documents, with the reset of the failure count on a success that
`scm/main/breaker-spi/tests/breaker_int_test.rs:682-702` shows. What the documentation leaves open is chosen: the counts
are zero after every change of state; an outcome recorded while the circuit is open (of a call admitted earlier) changes
nothing; the circuit is promoted once `cool_down` has passed since it opened, that moment included; a transition never
fails. The documentation says that a half-open circuit admits "a small number" of probes. The machine is given the state
and the two counts of completed calls and nothing else (`breaker_egress.rs:44-49`), so it cannot tell how many probes are
still out and cannot limit them; here it admits each call that comes while it is half-open.

## Model

| member | source | states |
|---|---|---|
| SplitPlanning.BuildMigrationPlan | scripts/draft_std_spi_split.py:215-313 | A plan is made exactly for an acceptable map (exact ownership, fresh checksums, distinct destinations, disjoint writes, every manifest written), and has the shape its execution relies on; the last refusal never happens |
| SplitPlanning.AcceptedMapsAre | scripts/draft_std_spi_split.py:215-302 | The acceptable maps in full: exact ownership, packages with directories of their own, a free place for every artifact, no path written twice or leading up, every required manifest written |
| SplitPlanning.PlaceArtifacts | scripts/draft_std_spi_split.py:236-263 | All artifacts are placed exactly when each has a place and no two share one; those that stay are not moved |
| SplitPlanning.CheckWrites | scripts/draft_std_spi_split.py:265-302 | The writes pass exactly when they are distinct, inside the repository, off every artifact and destination, and include every required manifest |
| SplitPlanning.DestinationKeepsTheRest | scripts/draft_std_spi_split.py:248-254 | A destination is the artifact's own path with only the directory of its package exchanged |
| SplitPlanning.RootIsFirst | scripts/draft_std_spi_split.py:249 | The package of an artifact is the first of the inventory whose directory it is in |
| SplitPlanning.PlaceablesAre | scripts/draft_std_spi_split.py:239-251 | An artifact has a place exactly when it is owned by a package with a directory, has its checksum, leads nowhere up and is in a package of the inventory |
| SplitPlanning.TargetsAre | scripts/draft_std_spi_split.py:237-263 | The destinations are exactly those of the artifacts, and are distinct exactly when no two artifacts share one |
| SplitPlanning.RequiredWritesAre | scripts/draft_std_spi_split.py:286-299 | The required writes are made exactly when the workspace manifest, the manifest of every package and every manifest of the inventory are written |
| SplitPlanning.AcceptedMapsStayInside | scripts/draft_std_spi_split.py:228-302 | An acceptable map writes the workspace manifest and that of each package, and no path it writes, moves or moves to leads up |
| SplitPlanning.MovingKeeps | scripts/draft_std_spi_split.py:262-263 | The moves are exactly the placements that go elsewhere, still without a source or destination twice |
| SplitPlanning.PlansHaveShape | scripts/draft_std_spi_split.py:237-276 | Distinct destinations and disjoint writes give every plan the shape on which execution and undo rely |
| SplitPlanning.MigrationKeepsArtifacts | scripts/draft_std_spi_split.py:215-313 | After a migration every inventoried artifact, moved or not, is at its own destination with its own checksum, no two share one, and nothing outside the plan has changed |
| SplitPlanning.UsedMapIsRefused | scripts/draft_std_spi_split.py:223-226 | Once a map has moved anything it is refused for every inventory of the tree it left, because it owns a path that is gone |
| SplitMigration.MigratedIsRenameThenWrite | scripts/draft_std_spi_split.py:387-422 | Under a collision-free checksum, staging copies, verifying them and removing the sources refines renaming the files one by one and then making the writes |
| SplitMigration.RenameAllAt | scripts/draft_std_spi_split.py:387-422 | Renaming one by one puts at each destination what its source held, empties the sources and keeps every other path |
| SplitMigration.WriteAllAt | scripts/draft_std_spi_split.py:401-412 | After the writes each target has its content or is gone, and every other path is untouched |
| SplitMigration.MigratedIsRecognised | scripts/draft_std_spi_split.py:336-361 | A tree a migration has produced is recognised as already applied, so applying the same plan again is a no-op |
| SplitMigration.AlreadyAppliedIffMigrated | scripts/draft_std_spi_split.py:336-349 | Under a collision-free checksum a tree is recognised exactly when carrying the whole plan out would leave it as it is |
| SplitMigration.ReadyIffMadeFor | scripts/draft_std_spi_split.py:366-379 | The checks pass exactly on the trees the plan was made for: sources with their checksums, destinations free, and write targets as expected |
| SplitMigration.ReadyTreesAgree | scripts/draft_std_spi_split.py:366-379 | Under a collision-free checksum two trees that pass the checks differ nowhere the plan looks |
| SplitMigration.RollbackConserves | scripts/draft_std_spi_split.py:423-441 | Under a collision-free checksum, after an undo every move has its bytes at exactly one of its two paths, every other path holds what it held, and the tree is the initial one exactly if no source was gone |
| SplitMigration.CollisionLosesBytes | scripts/draft_std_spi_split.py:397-399 | A witness: of two contents with one checksum, the copy that passes verification may hold the other |
| SplitMigration.UndoRestores | scripts/draft_std_spi_split.py:423-435 | Dropping temporaries, restoring writes and dropping the copies whose sources are still there leaves just the removed sources moved |
| SplitMigration.Worktree.StageMoves | scripts/draft_std_spi_split.py:387-399 | Staging that ends well has every destination in place with its checksum; stopped anywhere, a partial copy included, it can be undone |
| SplitMigration.Worktree.ReplaceTarget | scripts/draft_std_spi_split.py:408-412 | A replaced target has the new content and its temporary file is gone; a failure at any point can be undone |
| SplitMigration.Worktree.MakeWrites | scripts/draft_std_spi_split.py:401-412 | All writes are made and no temporary file is left beside them, or the tree can be undone |
| SplitMigration.Worktree.VerifyCopies | scripts/draft_std_spi_split.py:415-418 | Sources are removed only after every copy was found with its checksum |
| SplitMigration.Worktree.RemoveSources | scripts/draft_std_spi_split.py:419-422 | The sources go one by one, in order; stopped anywhere, exactly the first ones are gone and the rest can be undone |
| SplitMigration.Worktree.Rollback | scripts/draft_std_spi_split.py:423-441 | From any point the attempt can have reached, the undo leaves exactly the removed sources moved and everything else as it was |
| SplitMigration.Worktree.Apply | scripts/draft_std_spi_split.py:358-442 | Each refusal occurs exactly in its case and changes nothing; otherwise the tree is migrated, or rolled back to the tree with just the sources moved that were already gone; when no step fails it is rolled back exactly if some write deletes a file it expects not to be there |
| ApiMigration.PlanMigration | scripts/migrate_api_packages.py:107-182 | A plan is made exactly when all packages are still to be migrated and every file has a free place of its own, and is empty when all are migrated |
| ApiMigration.PlansHaveShape | scripts/migrate_api_packages.py:140-182 | Every plan has distinct destinations, and no moved file goes to a place that is taken or that is another file's source |
| ApiMigration.ImageHoldsRewrittenFiles | scripts/migrate_api_packages.py:160-180 | In the image every tracked file that is kept is at its place, with its content rewritten |
| ApiMigration.PackageIsWhereItsManifestIs | scripts/migrate_api_packages.py:113-122 | A package is still to be migrated when its old manifest is there, and migrated when only its new one is |
| ApiMigration.PackagePathsGo | scripts/migrate_api_packages.py:150-158 | A file of a package goes to the new directory, its `api` level dropped unless it is the last, and the module file of that level goes nowhere |
| ApiMigration.OtherPathsStay | scripts/migrate_api_packages.py:146-149 | Every file outside the packages stays where it is |
| ApiMigration.CollisionsAreFlattenings | scripts/migrate_api_packages.py:151-177 | Two files collide only when one is the other with its `src/api` level flattened, or one is already where the other goes |
| ApiMigration.FlattenedOnlyOnce | scripts/migrate_api_packages.py:151-158 | A file of a package ends up at a `src/api` level again exactly when it was below `src/api/api` or is itself `src/api` |
| ApiMigration.ImageIsCleared | scripts/migrate_api_packages.py:213-236 | The image of a plan passes the two last checks exactly when no file of the tree stood in the way |
| ApiMigration.ClearedMeans | scripts/migrate_api_packages.py:213-236 | The last checks pass exactly when no file is below an old directory or below `src/api` in a new one |
| ApiMigration.NestedApiIsFoundWanting | scripts/migrate_api_packages.py:151-236 | The image of a plan with a tracked file below `src/api/api` never passes the last checks |
| ApiMigration.NestedTreeIsPlanned | scripts/migrate_api_packages.py:107-182 | A witness: a tree of the five packages with such a file, for which a plan is made |
| ApiMigration.AppliedIsComplete | scripts/migrate_api_packages.py:112-126 | After a plan was applied every package counts as migrated, so planning again plans nothing |
| ApiMigration.Worktree.WriteAll | scripts/migrate_api_packages.py:205-209 | Every kept file is at its place with its new content, and nothing but targets changed, also when a write fails midway |
| ApiMigration.Worktree.RemoveMoved | scripts/migrate_api_packages.py:210-212 | Exactly the sources that moved or were dropped are gone |
| ApiMigration.Worktree.Restore | scripts/migrate_api_packages.py:237-245 | What was not there goes, what was there comes back, and no other path changes |
| ApiMigration.Worktree.Apply | scripts/migrate_api_packages.py:185-246 | The tree holds exactly the planned image, or after a refusal or a failure of any step exactly what it held; when no step fails that is only for a missing source or an image that fails the last checks |
| RetryClassifier.HintIffGrammar | scm/main/retry-std/src/std/std_retry_classifier.rs:96-103 | The parser returns a number exactly for a tag that nothing before it completes, a number and an `s` |
| RetryClassifier.TagDoesNotStraddle | scm/main/retry-std/src/std/std_retry_classifier.rs:97-98 | No occurrence of the tag begins in the text before it, so the first one is the one written |
| RetryClassifier.WrittenHintIsRead | scm/main/retry-std/src/std/std_retry_classifier.rs:96-103 | A wait written into a message is read back, whatever surrounds it, exactly when it fits in 64 bits |
| RetryClassifier.WrittenHintIsTheFallback | scm/main/retry-std/src/std/std_retry_classifier.rs:72-94 | A readable trailer wins over the message, the first key over the second, and the hint is used exactly when neither key's first value parses |
| RetryClassifier.WrittenTrailerIsRead | scm/main/retry-std/src/std/std_retry_classifier.rs:88 | A wait written into a trailer is read back, whatever white space is around it, exactly when it fits in 64 bits |
| RetryClassifier.NumbersAre | scm/main/retry-std/src/std/std_retry_classifier.rs:88 | Leading zeros and a plus sign do not change the number that is read, which is one exactly when it fits in 64 bits |
| RetryClassifier.NoNumber | scm/main/retry-std/src/std/std_retry_classifier.rs:88 | A text without a digit, or with any other character, is no number |
| RetryClassifier.MessageDecides | scm/main/retry-std/src/std/std_retry_classifier.rs:47-59 | An exhausted peer is not asked again when its message speaks of a quota, in any case and whatever else it says; on the rate-limit track when it speaks of a rate and of no quota; else on the standard track |
| RetryLoop.RunWithRetry | scm/main/retry-spi/src/spi/decorator/retry_transport.rs:197-319 | The loop returns the specified outcome, gives each attempt the time that is left, and pauses exactly where specified |
| RetryLoop.Run.StopsWithoutBudget | scm/main/retry-spi/src/spi/decorator/retry_transport.rs:215-312 | Without a deadline a call stops at the first result that is not retried, at the rate-limited one that is one too many, or at the last allowed attempt, whichever is first, and no attempt gets a timeout |
| RetryLoop.Run.StopsForAReason | scm/main/retry-spi/src/spi/decorator/retry_transport.rs:215-345 | With a deadline or without, a call ends after an attempt only when its result is not retried, an allowance is used up, the pause would not end before the budget does, or the budget is used up when the pause is over |
| RetryLoop.Run.CountIsHowMany | scm/main/retry-spi/src/spi/decorator/retry_transport.rs:251-298 | The two counters are the numbers of earlier attempts with that decision |
| RetryLoop.Run.Continues | scm/main/retry-spi/src/spi/decorator/retry_transport.rs:215-312 | Every attempt but the last was retryable, its track had room, its pause fitted and the next had time; after the last one of these fails |
| RetryLoop.Run.ReturnsTheLastResult | scm/main/retry-spi/src/spi/decorator/retry_transport.rs:220-231 | The caller gets the last attempt's own result unless none was made or the classifier retried a success, and exactly then a failure of the loop's own |
| RetryLoop.Run.RetriedSuccessIsLost | scm/main/retry-spi/src/spi/decorator/retry_transport.rs:314-318 | A witness: a classifier that retries a success turns a call that went well into the loop's own failure |
| RetryLoop.Run.RetriedSuccessFails | scm/main/retry-spi/src/spi/decorator/retry_transport.rs:227-318 | A success that is retried as the last attempt becomes a passed deadline, if the budget ran out during the pause, and an internal failure otherwise |
| RetryLoop.Run.StandardRunsReturnTheLast | scm/main/retry-spi/src/spi/decorator/retry_transport.rs:314-318 | With the standard classifier the last result is always returned, and the loop's own failure only when the budget was spent before a first attempt |
| RetryLoop.Run.KeepsWithinBudget | scm/main/retry-spi/src/spi/decorator/retry_transport.rs:215-234 | With a clock that does not run backwards every timeout is what is left of the budget, positive and never growing; every pause ends before the budget does; all pauses together stay below it |
| RetryLoop.Run.ClockThatRunsBackGrowsTimeouts | scm/main/retry-spi/src/spi/decorator/retry_transport.rs:215-234 | A witness: with a clock that runs backwards the second attempt gets more time than the first |
| RetryLoop.Run.PausesOncePerGap | scm/main/retry-spi/src/spi/decorator/retry_transport.rs:249-310 | With a deadline or without, the pauses are those drawn after each attempt but the last, and that of the last exactly when it is retried on a track with room and its pause fits |
| RetryLoop.Run.PausesBetweenAttempts | scm/main/retry-spi/src/spi/decorator/retry_transport.rs:249-310 | Without a deadline there is a pause between any two attempts, and one after the last exactly when the last allowed attempt is retried on a track with room |
| RetryLoop.CallUnary | scm/main/retry-spi/src/spi/decorator/retry_transport.rs:32-67 | With one attempt allowed the message is forwarded unencoded; otherwise the loop runs, its later attempts failing to decode if the message cannot be remade: a call that ends at its first attempt does not notice, any other ends at its second; each attempt sends the same message if the encoding round-trips, the same metadata, and the time that is left as its timeout |
| Breaker.GrpcBreakerClient.AdmitCall | scm/main/breaker-spi/src/spi/decorator/breaker_egress.rs:41-71 | Undisturbed, admitting is one transition of the machine, and refuses with `Unavailable` exactly when it does |
| Breaker.GrpcBreakerClient.RecordCall | scm/main/breaker-spi/src/spi/decorator/breaker_egress.rs:78-97 | Undisturbed, recording is one transition of the machine |
| Breaker.GrpcBreakerClient.Guard | scm/main/breaker-spi/src/spi/decorator/breaker_egress.rs:101-114 | A disabled breaker is not consulted and does not move; a refused call is not made and fails as `Unavailable`; a call that is made returns its own result and is recorded |
| Breaker.GrpcBreakerClient.GuardRaw | scm/main/breaker-spi/src/spi/decorator/breaker_egress.rs:173-197 | The raw calls, which repeat the guard, do the same |
| Breaker.ClosedCountsTrailingFailures | scm/main/breaker-spi/tests/breaker_int_test.rs:682-702 | A fresh breaker counts the failures since the last success, and is still closed exactly when no run of `failure_threshold` failures has occurred |
| Breaker.OpenUntilCooledDown | scm/main/breaker-spi/src/lib.rs:16-19 | An open circuit refuses every call until the cool-down is over, without moving, and lets the first call after it out |
| Breaker.ProbesDecide | scm/main/breaker-spi/src/lib.rs:18-22 | The probes go out; `half_open_probe_count` successes in a row close the circuit with nothing counted, and one failure opens it again from then |
| Breaker.EveryInterleavingIsSafe | scm/main/breaker-spi/src/spi/decorator/breaker_egress.rs:41-115 | In every interleaving the node and all snapshots are documented states, a refused call never reached the wrapped client, and one that returned is recorded exactly once |
| Breaker.FreshWritesAreAtomic | scm/main/breaker-spi/src/spi/decorator/breaker_egress.rs:42-62 | As long as no write-back overwrites a node other than the one it read, the run is a run of atomic transitions |
| Breaker.NoOverlapIsAtomic | scm/main/breaker-spi/src/spi/decorator/breaker_egress.rs:41-97 | Calls that never hold a snapshot at the same time behave as atomic transitions |
| Breaker.CallsAreThoseLetOut | scm/main/breaker-spi/src/spi/decorator/breaker_egress.rs:41-115 | As long as no write-back is stale, the calls made and the outcomes recorded are just those of the atomic machine |
| Breaker.DisabledIsNotConsulted | scm/main/breaker-spi/src/spi/decorator/breaker_egress.rs:101-105 | In no interleaving does a disabled breaker move, record or refuse |
| Breaker.OverlapLosesAFailure | scm/main/breaker-spi/src/spi/decorator/breaker_egress.rs:78-97 | That hypothesis is needed: two overlapping failures can count as one, and the circuit stays closed |
| Breaker.StaleAdmissionClosesAnOpenCircuit | scm/main/breaker-spi/src/spi/decorator/breaker_egress.rs:42-62 | A witness: an admission written back late closes a circuit that has just opened, and its call goes out though the atomic run refuses it |
| ResilientStack.ResilientClient.Call | scm/main/resilient-spi/src/saf/std_grpc_resilient_factory.rs:34-40 | A call through the stack is one guarded run of the whole retry loop: let out, it has the outcome and the attempts of that run; refused, it is `Unavailable` with none |
| ResilientStack.OneCallCountsOnce | scm/main/resilient-spi/src/saf/std_grpc_resilient_factory.rs:34-40 | However often it was retried a failed call counts once; the one that reaches the threshold opens the circuit |
| ResilientStack.FailingPeerIsShielded | scm/main/resilient-spi/src/saf/std_grpc_resilient_factory.rs:34-40 | Against a failing peer at most `failure_threshold` times `max_attempts` attempts go out before the circuit opens, and none until the cool-down is over |
| ResilientStack.FailedCallsMadeAttempts | scm/main/retry-spi/src/spi/decorator/retry_transport.rs:220-231 | A call the breaker counts as failed made at least one attempt: a budget that is spent at once does not count |
| ResilientStack.CountedIfRetriedOrInternal | scm/main/breaker-spi/src/spi/decorator/std_failure_classifier.rs:35-58 | The breaker counts exactly what is retried on the standard track, except exhaustion, and internal or undecodable replies, which are not retried |
| HealthWire.ReadsVarintIff | scm/main/transport-api/src/client/dto/health_proto_codec.rs:60-76 | A varint is read exactly when the bytes begin with one (at most ten bytes, nothing above bit 63), and then just that one |
| HealthWire.VarintFailures | scm/main/transport-api/src/client/dto/health_proto_codec.rs:60-76 | Bytes that begin with no varint are truncated when there are fewer than ten and each has its top bit set, and overflow when the tenth is above 1 |
| HealthWire.GroupsAreWeighed | scm/main/transport-api/src/client/dto/health_proto_codec.rs:18-76 | The groups of seven bits are digits to base 128, least significant first |
| HealthWire.VarintRoundTrip | scm/main/transport-api/src/client/dto/health_proto_codec.rs:18-34 | Every 64-bit value, followed by anything, is read back from exactly its own one to ten bytes |
| HealthCodec.HealthProtoReader.ReadVarint | scm/main/transport-api/src/client/dto/health_proto_codec.rs:60-76 | The loop over shifted groups reads the specified varint, moves past just it, and stays within the bytes |
| HealthCodec.HealthProtoReader.ReadLengthDelimited | scm/main/transport-api/src/client/dto/health_proto_codec.rs:79-91 | A record is read exactly when its length fits in what is left, with an overflowing length told apart |
| HealthCodec.HealthProtoReader.Skip | scm/main/transport-api/src/client/dto/health_proto_codec.rs:94-102 | Skipping moves past exactly the body of a field of that wire type, or fails as reading it would |
| HealthCodec.HealthProtoReader.NextField | scm/main/transport-api/src/client/dto/health_proto_codec.rs:46-57 | The next key is read and accepted exactly when its number and wire type are allowed; at the end there is none |
| HealthCodec.FieldThen | scm/main/transport-api/src/client/dto/health_proto_codec.rs:46-114 | A valid field at the beginning is read, whatever follows |
| HealthCodec.ReadIsField | scm/main/transport-api/src/client/dto/health_proto_codec.rs:46-114 | What is read is a valid field and is what the bytes begin with, so the offset always grows |
| HealthCodec.RecordsBySize | scm/main/transport-api/src/client/dto/health_proto_codec.rs:79-91 | A record overflows exactly when its end is no 64-bit offset, is truncated when that is past the bytes, and is read otherwise |
| HealthCodec.KeysByNumber | scm/main/transport-api/src/client/dto/health_proto_codec.rs:46-57 | A key is refused exactly when its number or wire type is not allowed; after any other the failures are those of the body |
| HealthCodec.BodiesBySize | scm/main/transport-api/src/client/dto/health_proto_codec.rs:94-114 | A fixed-width body fails only when truncated, and a varint body as reading it does |
| HealthCodec.ReadsUpToTheFailure | scm/main/transport-api/src/client/dto/health_proto_codec.rs:46-114 | The fields before one that cannot be read are read, and then its own failure is found |
| HealthCodec.UnreachableFailures | scm/main/transport-api/src/client/dto/health_proto_codec.rs:75-100 | No message fails for an unsupported wire type or for a varint of more than ten bytes |
| HealthCodec.ReadsExactlyTheGrammar | scm/main/transport-api/src/client/dto/health_proto_codec.rs:46-114 | The bytes that can be read are exactly the concatenations of valid fields, each with one reading |
| HealthMessages.WriteVarint | scm/main/transport-api/src/client/dto/health_proto_codec.rs:18-24 | The loop appends exactly the varint of the value to the buffer |
| HealthMessages.VarintLen | scm/main/transport-api/src/client/dto/health_proto_codec.rs:27-34 | The length counted is that of the varint written |
| HealthMessages.EncodeResponse | scm/main/transport-api/src/client/dto/health_check_response.rs:25-31 | The encoding is appended to the buffer: nothing for a zero status, else one varint field |
| HealthMessages.EstimateResponse | scm/main/transport-api/src/client/dto/health_check_response.rs:33-39 | The estimate is the exact number of bytes the encoder appends |
| HealthMessages.DecodeResponse | scm/main/transport-api/src/client/dto/health_check_response.rs:41-52 | The decoding loop terminates and gives the specified status or the first failure |
| HealthMessages.ResponseAcceptsTheGrammar | scm/main/transport-api/src/client/dto/health_check_response.rs:41-52 | Decoding succeeds exactly on the grammar, with the status its fields give |
| HealthMessages.ResponseFailsAtTheFirst | scm/main/transport-api/src/client/dto/health_check_response.rs:41-52 | Decoding fails as its first unreadable field does, wherever that is |
| HealthMessages.LastStatusWins | scm/main/transport-api/src/client/dto/health_check_response.rs:44-50 | The last status field counts, and without one the status is zero |
| HealthMessages.UnknownFieldIsIgnored | scm/main/transport-api/src/client/dto/health_check_response.rs:47-49 | A well-formed other field anywhere between fields changes nothing |
| HealthMessages.StatusOnTheWire | scm/main/transport-api/src/client/dto/health_check_response.rs:25-31 | A status is written as the byte 08 and the varint of its 64-bit two's complement, ten bytes for a negative one |
| HealthMessages.LowBitsCount | scm/main/transport-api/src/client/dto/health_check_response.rs:45-46 | Of a decoded value the low 32 bits count, as a signed number |
| HealthMessages.ResponseRoundTrip | scm/main/transport-api/src/client/dto/health_check_response.rs:25-52 | Every 32-bit status survives encoding and decoding |
| HealthMessages.EncodeRequest | scm/main/transport-api/src/client/dto/health_check_request.rs:17-24 | The encoding is appended to the buffer: nothing for an empty name, else one length-delimited field |
| HealthMessages.EstimateRequest | scm/main/transport-api/src/client/dto/health_check_request.rs:26-32 | The estimate is the exact number of bytes the encoder appends |
| HealthMessages.DecodeRequest | scm/main/transport-api/src/client/dto/health_check_request.rs:34-50 | The decoding loop terminates and gives the specified name or the first failure, a name that is not text included |
| HealthMessages.RequestAcceptsTheGrammar | scm/main/transport-api/src/client/dto/health_check_request.rs:34-50 | Decoding succeeds exactly on the grammar with only text for names |
| HealthMessages.RequestFailsAtTheFirst | scm/main/transport-api/src/client/dto/health_check_request.rs:34-50 | Decoding fails as the first unreadable field does, unless a name before it is not text |
| HealthMessages.UntextIsRefused | scm/main/transport-api/src/client/dto/health_check_request.rs:37-48 | A message that can be read fails when a name in it is not text, even if a later name is |
| HealthMessages.LastServiceWins | scm/main/transport-api/src/client/dto/health_check_request.rs:37-48 | The last name counts, and without one the name is empty |
| HealthMessages.UnknownRequestFieldIsIgnored | scm/main/transport-api/src/client/dto/health_check_request.rs:45-47 | A well-formed other field anywhere between fields changes nothing, failures included |
| HealthMessages.RequestRoundTrip | scm/main/transport-api/src/client/dto/health_check_request.rs:17-50 | Every name that is text survives encoding and decoding |
| StreamLifecycle.EveryRunCounts | scm/main/transport-spi/src/spi/client/pattern_egress_interceptor.rs:101-206 | Over every run: opened at most once, one event per message read, one per failed read and per trailers, and cancelled on drop exactly when nothing else ended the stream |
| StreamLifecycle.EveryRunReports | scm/main/transport-spi/src/spi/client/pattern_egress_interceptor.rs:101-206 | In plain counts: a stream is reported opened exactly if its headers were there when it was handed out or when asked for later, and every other event as often as its operation happened |
| StreamLifecycle.EventsInOrder | scm/main/transport-spi/src/spi/client/pattern_egress_interceptor.rs:101-206 | What is reported is what the operations report, in their order, and last a cancellation if the stream was dropped before any of them ended it |
| StreamLifecycle.OneTerminalEvent | scm/main/transport-spi/src/spi/client/pattern_egress_interceptor.rs:124-206 | A dropped stream has reported an end, and exactly one if and only if its caller ended it no more than once |
| StreamLifecycle.ReadingOnReportsTwoEnds | scm/main/transport-spi/src/spi/client/pattern_egress_interceptor.rs:139-193 | A witness: a caller that reads the trailers after a failed read has two ends reported |
| StreamLifecycle.PatternResponseStream.GetHeaders | scm/main/transport-spi/src/spi/client/pattern_egress_interceptor.rs:155-172 | Undisturbed, it is its two atomic halves |
| StreamLifecycle.PatternResponseStream.ReadMessageOf | scm/main/transport-spi/src/spi/client/pattern_egress_interceptor.rs:124-144 | A read is the specified step: flags and reported events |
| StreamLifecycle.PatternResponseStream.ReadTrailersOf | scm/main/transport-spi/src/spi/client/pattern_egress_interceptor.rs:174-195 | A read of the trailers is the specified step |
| StreamLifecycle.PatternResponseStream.DropStream | scm/main/transport-spi/src/spi/client/pattern_egress_interceptor.rs:198-206 | A drop is the specified step |
| CallLifecycle.InterceptedTransport.Call | scm/main/transport-spi/src/spi/client/intercepted_transport.rs:129-160 | A call gives the specified result, sends the specified call and tells the specified events |
| CallLifecycle.InterceptedTransport.OpenStream | scm/main/transport-spi/src/spi/client/intercepted_transport.rs:222-255 | A streaming call is refused, fails to open, or hands out a fresh stream; what is sent and what is told so far are the specified ones |
| CallLifecycle.InterceptedTransport.RunBeforeHooks | scm/main/transport-spi/src/spi/client/intercepted_transport.rs:41-54 | The call carries what the hooks made of it and its start is told, or it is refused and nothing is |
| CallLifecycle.InterceptedTransport.RunAfterHooks | scm/main/transport-spi/src/spi/client/intercepted_transport.rs:82-108 | A reply fails exactly when its metadata cannot be copied or an interceptor refuses it; an empty chain looks at nothing |
| CallLifecycle.InterceptedTransport.OnCompleted | scm/main/transport-spi/src/spi/client/pattern_egress_interceptor.rs:55-77 | The completed event, with headers or without, is told with copies of its metadata or not at all |
| CallLifecycle.OneEndIsTold | scm/main/transport-spi/src/spi/client/intercepted_transport.rs:41-155 | A call is refused with nothing sent and nothing told, or is sent once with only headers added and one start and one end are told, a failure exactly when the caller gets an error; the end is lost only with an empty chain |
| CallLifecycle.HookRefuses | scm/main/transport-std/src/std/interceptor/std_grpc_egress_interceptor_chain.rs:32-37 | A call is refused with an error exactly when some hook refuses with it what those before it left |
| CallLifecycle.FirstRefusalCounts | scm/main/transport-std/src/std/interceptor/std_grpc_egress_interceptor_chain.rs:39-44 | A reply is refused exactly when some interceptor refuses it, and then as the first one says |
| CallLifecycle.WhatTheCallerGets | scm/main/transport-spi/src/spi/client/intercepted_transport.rs:82-155 | The caller gets the wrapped client's failure as it is, and its answer unless that cannot be copied, an internal failure, or is refused |
| CallLifecycle.StreamCallsEnd | scm/main/transport-spi/src/spi/client/intercepted_transport.rs:222-255 | A streaming call that is sent reports its start and, if its caller ends it no more than once, exactly one end |
| CallLifecycle.StreamEndIsTold | scm/main/transport-spi/src/spi/client/pattern_egress_interceptor.rs:55-82 | Of such a streaming call the chain is told just one end, and none exactly when it completed with trailers that cannot be copied |
| CallLifecycle.CompletedStreamIsUntold | scm/main/transport-spi/src/spi/client/pattern_egress_interceptor.rs:55-77 | A witness: a stream that completes through a chain that is not empty and of whose end the chain is not told |
| Metadata.MetadataBuilder.AppendAll | scm/main/transport-spi/src/spi/client/std_metadata_extender.rs:55-68 | Every entry is appended, text first, exactly when all can be read and are accepted |
| Metadata.Copy | scm/main/transport-spi/src/spi/client/std_metadata_extender.rs:38-51 | A copy has the same entries in the same order, or there is none |
| Metadata.Append | scm/main/transport-spi/src/spi/client/std_metadata_extender.rs:14-18 | One entry more, after those of the source |
| Metadata.Extend | scm/main/transport-spi/src/spi/client/std_metadata_extender.rs:20-36 | The additions whose key the source lacks are appended in order |
| Metadata.ReadableIsCopied | scm/main/transport-spi/src/spi/client/std_metadata_extender.rs:38-51 | A reply is copied exactly when all of it can be read and is accepted |
| Metadata.AcceptedIsAppended | scm/main/transport-spi/src/spi/client/std_metadata_extender.rs:14-18 | An entry is appended exactly when it and all there is are accepted, and the result can be copied again |
| Metadata.AcceptedIsExtended | scm/main/transport-spi/src/spi/client/std_metadata_extender.rs:20-36 | Metadata is extended exactly when it can be copied, every added key can be looked up and every addition it lacks is accepted |
| Metadata.ExtendKeepsCallerKeys | scm/main/transport-spi/src/spi/client/std_metadata_extender.rs:27-33 | Entries the caller set stay first and in order, and a key the caller has gets no other value |
| Metadata.ExtendAddsTheRest | scm/main/transport-spi/src/spi/client/std_metadata_extender.rs:26-34 | A key the caller did not set gets every value added for it, in order |
| Metadata.ExtendIsIdempotent | scm/main/transport-spi/src/spi/client/std_metadata_extender.rs:20-36 | Extending again by the same additions succeeds and changes nothing |
| Interceptors.PendingCall.AddHeaderEntry | scm/main/transport-spi/src/spi/client/pending_call.rs:66-75 | A header is appended or refused, and a refusal leaves the call as it was |
| Interceptors.PendingCall.Intercept | scm/main/transport-spi/src/spi/client/pending_call.rs:37-76 | Any program over the interface of a pending call has on the mutable call the effect specified for it |
| Interceptors.RunBefore | scm/main/transport-std/src/std/interceptor/std_grpc_egress_interceptor_chain.rs:32-37 | The hooks run in order up to the first that refuses |
| Interceptors.AnyChainOnlyAdds | scm/main/transport-std/src/std/interceptor/std_grpc_egress_interceptor_chain.rs:32-37 | Whatever the interceptors are, the call's text entries stay a prefix and its binary entries and path stay as they were |
| Interceptors.ChainsCompose | scm/main/transport-std/src/std/interceptor/std_grpc_egress_interceptor_chain.rs:32-37 | After the first refusal no hook runs; until then each works on what those before it left |
| Interceptors.LastTimeoutWins | scm/main/transport-spi/src/spi/client/pending_call.rs:46-48 | The last timeout a chain sets is the one the call leaves with, and setting it changes nothing else |
| Interceptors.CallersTimeoutStays | scm/main/transport-spi/src/spi/client/pending_call.rs:30-48 | A chain of hooks that set none leaves the caller's timeout, refused or not |
| Interceptors.KnownHooksSetNoTimeout | scm/main/transport-std/src/std/interceptor/trace_context_grpc_egress_interceptor.rs:27-44 | The bearer and the trace-context interceptors never set a timeout |
| Interceptors.BearerOutcome | scm/main/auth-bearer-spi/src/spi/jsonwebtoken/bearer_egress_interceptor.rs:59-72 | In every case: a call with an `authorization` goes on as it is, one without a token is refused as internal, and one whose token is not accepted as invalid |
| Interceptors.TraceOutcome | scm/main/transport-std/src/std/interceptor/trace_context_grpc_egress_interceptor.rs:27-44 | In every case, refusals included: if only its `tracestate` is refused the `traceparent` stays |
| Interceptors.BearerValues | scm/main/auth-bearer-spi/src/spi/jsonwebtoken/bearer_egress_interceptor.rs:59-72 | If the key can be looked up, a bearer interceptor adds one `authorization` to a call without one, and nothing else ever |
| Interceptors.UnseenHeaderIsAddedAgain | scm/main/transport-spi/src/spi/client/pending_call.rs:50-57 | If `authorization` could not be looked up, a bearer interceptor would add its own beside the caller's |
| Interceptors.TraceValues | scm/main/transport-std/src/std/interceptor/trace_context_grpc_egress_interceptor.rs:27-44 | If the key can be looked up, a static source adds just its `traceparent` and its `tracestate`, if it has one, to a call without a `traceparent`, and nothing to any other |
| Interceptors.KnownChainAddsOnce | scm/main/transport-std/src/std/interceptor/std_grpc_egress_interceptor_chain.rs:32-37 | If both keys can be looked up, any mix of any number of them adds at most one `authorization` and one `traceparent`, none the caller had, and no other key but `tracestate` |
| Interceptors.KnownChainTraces | scm/main/transport-std/src/std/interceptor/trace_context_grpc_egress_interceptor.rs:27-44 | If both keys can be looked up, any such chain adds just the `traceparent` and the `tracestate` of its first static source, to a call without a `traceparent`, and neither to any other |
| Interceptors.OwnTraceStateGetsASecond | scm/main/transport-std/src/std/interceptor/trace_context_grpc_egress_interceptor.rs:28-40 | A caller's own `tracestate` without a `traceparent` gets a second value |
| RenameCrate.SubstituteMapsRuns | scripts/rename_crate.py:55-56 | Substituting a pattern with no name character on either side replaces exactly the maximal runs that are the word |
| RenameCrate.SearchFindsRuns | scripts/rename_crate.py:109 | The pattern is found exactly when a maximal run is the word |
| RenameCrate.HasRunIffStands | scripts/rename_crate.py:55-56 | A word is a run of a text exactly when it stands somewhere in it with no name character on either side |
| RenameCrate.MapRunsAround | scripts/rename_crate.py:55-56 | A word that stands between other pieces is replaced, and they are gone through on their own |
| RenameCrate.RewriteRenamesRuns | scripts/rename_crate.py:88-89 | The two substitutions, one after the other, replace exactly the runs that are the old name or the old identifier |
| RenameCrate.RewriteIsIdempotent | scripts/rename_crate.py:85-93 | Renaming again changes nothing |
| RenameCrate.RewriteLeavesNothing | scripts/rename_crate.py:85-111 | No renamed line still names the old crate |
| RenameCrate.ChangedIffNamed | scripts/rename_crate.py:90-91 | A line is changed exactly when it has a run that is renamed to another |
| RenameCrate.TableRenames | scripts/rename_crate.py:29-35 | Every pair of the table has new spellings that are no old ones |
| RenameCrate.Rewrite | scripts/rename_crate.py:85-93 | The whole text has its runs replaced, keeps its line count, and the numbers listed are exactly those of the lines that differ, ascending |
| RenameCrate.FindLeftovers | scripts/rename_crate.py:108-110 | The numbers listed are exactly those of the lines that still name the old crate |
| RenameCrate.LeftoversNameTheCrate | scripts/rename_crate.py:109 | A line is left over exactly when the old name or the old identifier stands in it |
| RenameCrate.NothingIsLeftOver | scripts/rename_crate.py:99-111 | After a renaming by a pair of the table no line of any text is left over |
| BlankOut.Blank | scripts/check_layout.py:336-389 | The scanner's output is its tokens' one after the other, each blanked by its kind |
| BlankOut.TakeBlock | scripts/check_layout.py:349-364 | Nested block comments are blanked up to the end that matches, newlines kept |
| BlankOut.TakeString | scripts/check_layout.py:371-381 | A string is blanked up to its closing quote, escapes skipped; an open one adds a character |
| BlankOut.BlockCommentEnds | scripts/check_layout.py:349-364 | A block comment ends where it is closed, past every comment nested in it to any depth |
| BlankOut.OpenCommentTakesTheRest | scripts/check_layout.py:349-364 | A block comment that is closed nowhere goes on to the end of the text, and any other ends where it is closed |
| BlankOut.LineCommentEnds | scripts/check_layout.py:345-348 | Two slashes begin a comment that ends with the line or the text |
| BlankOut.RawStringBegins | scripts/check_layout.py:365-366 | An `r`, hash signs and a quote begin a raw string, unless a letter, a digit or an underscore comes before |
| BlankOut.QuoteBegins | scripts/check_layout.py:371-381 | A quote begins a string that ends just past its closing quote |
| BlankOut.ApostropheBegins | scripts/check_layout.py:382-385 | A character literal is one character, or a backslash, a character on the line and anything up to the next apostrophe |
| BlankOut.CodeBeginsNothing | scripts/check_layout.py:342-388 | A character is code exactly when none of the five openings is there |
| BlankOut.RawStringEnds | scripts/check_layout.py:365-370 | A raw string ends at the first quote with enough hash signs after it, or with the text |
| BlankOut.StringEnds | scripts/check_layout.py:371-381 | A string ends at its first quote after an even number of backslashes, or with the text |
| BlankOut.KeepsLinesIffTame | scripts/check_layout.py:336-389 | Length and newline positions are kept exactly when strings are closed and character literals hold no newline |
| BlankOut.UntameTextsLoseLines | scripts/check_layout.py:371-385 | Witnesses: an open string grows by a character, and a newline between apostrophes loses its line |
| BlankOut.EachCharacter | scripts/check_layout.py:336-389 | Each character of a tame text becomes itself if it is code or a newline, and a space otherwise |
| BlankOut.SameLine | scripts/check_layout.py:391-393 | A position is on the same line before and after |
| BlankOut.LineOfCounts | scripts/check_layout.py:391-393 | The line of a position is one more than the newlines before it |
| BlankOut.NothingLeftToBlank | scripts/check_layout.py:336-389 | Nothing in the output begins a comment, a string or a character literal |
| BlankOut.BlankIsIdempotent | scripts/check_layout.py:336-389 | Blanking a tame text again changes nothing |
| GrpcFrame.DecodeAll | scm/main/test-support/src/frame/grpc_frame.rs:25-41 | The loop gives the complete messages at the beginning of the data, in order |
| GrpcFrame.LengthIsBigEndian | scm/main/test-support/src/frame/grpc_frame.rs:29-46 | The length of a prefix is written and read most significant byte first |
| GrpcFrame.EncodedIsPrefixed | scm/main/test-support/src/frame/grpc_frame.rs:15-49 | An encoded message is its flag, 1 if compressed and 0 otherwise, the low 32 bits of its length and its payload |
| GrpcFrame.EncodedFramesDecode | scm/main/test-support/src/frame/grpc_frame.rs:15-49 | A list of encoded messages of less than 2^32 bytes each, followed by any incomplete one, decodes to that list |
| GrpcFrame.DecodesIffItFits | scm/main/test-support/src/frame/grpc_frame.rs:43-49 | One message comes back exactly when its length fits in 32 bits |
| GrpcFrame.ReencodingIsPrefix | scm/main/test-support/src/frame/grpc_frame.rs:15-49 | Encoding what was decoded gives the beginning of the data exactly when its flag bytes are 0 or 1 |

## Left out

- The wire engine, TLS, PEM reading, sockets, and the in-process peers of the tests: input and output, and code of other crates.
- The load balancer: its selection and health live in a crate that is not part of this model; the code here only forwards.
- The backoff arithmetic and the jitter: another crate over floating point; a pause is any non-negative time.
- The internals of the breaker's transition function: another crate; see "The breaker's machine". Its error results, which the source says do not occur, are not modelled.
- JWT signing, SHA-256, the UTF-8 validator and the acceptance rules of the metadata contract: arbitrary functions and predicates.
- Reading JSON and TOML, and the checks on the types of the reviewed map's entries: a map is taken as parsed.
- Git and cargo: what they say (a clean tree, the commit, whether the lock file could be refreshed) is an input.
- Symbolic links, directories as such (making, pruning and removing empty ones), and crashes that raise no exception: outside the map of files.
- The steps of an undo that themselves fail: an undo is taken to complete.
- The regular expressions with which `migrate_api_packages.py` rewrites text and reads module declarations: the rewriting is an arbitrary function, the declarations are acceptable or not.
- Worktree.Apply of `ApiMigration`: which bytes refreshing leaves in the lock file is not said, because cargo decides them.
- The file listing of the crate rename and the lock file it refreshes: the properties are those of one text.
- The bit operations of the varints: written with division and remainder; `usize` is taken to have 64 bits, so a length always converts.
- CallUnary: what was sent is put together after the loop from the attempts that were made, not while they are made.
- The streaming calls of the retry decorator and the other raw shapes of breaker and interceptors: they forward, or repeat the shape that is modelled.
- Cancellation views, configuration builders and their checks, factories, wrappers of data: each is settled by reading one branch.
- The other layout rules of `check_layout.py` and the listing scripts: reporting only.
