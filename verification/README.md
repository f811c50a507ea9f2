# Verified models of the scheduling and evidence algorithms

This Dafny 4.11 project models the algorithms and protocols of the repository that carry the
hardest promises, and proves those promises for every input, every run or every reachable state.
`dafny verify dfyconfig.toml` checks all of it.

| file | models |
|---|---|
| `ShardSequencer.dfy`, `ShardRule.dfy`, `ShardBounds.dfy`, `ShardTightness.dfy` | the CI shard sequencer: the dealing loop over bucket objects, its rule stated by inequalities and choices alone, agreement between runners, the longest-processing-time bound, and inputs that attain it |
| `AliasRewriter.dfy` | the incremental trie and its left-to-right, longest-first replacement |
| `AliasRegistry.dfy`, `AliasExpansion.dfy`, `AliasResolution.dfy`, `AliasCanonicalizer.dfy` | registration of generated identities, what a definition expands to and depends on, the memoised depth-first resolution with its cycle, collision and owner checks, and the final redirection of the rewriter |
| `JsonPointer.dfy`, `ParityTrace.dfy`, `ParityFindings.dfy`, `ParityBudgets.dfy`, `ParityDifference.dfy` | JSON pointers, and the budgeted tree comparison: the unbounded traversal, what its findings mean, which positions it visits, and the budgeted visit against all three |
| `ControlledContention.dfy`, `ChainInspection.dfy` | two-lock contention under a controller, as a step system with no queue discipline, and every outcome of reading a lock table |
| `FenceWitness.dfy` | the ordinals recorded while two transactions compete for one lock |
| `Wave.dfy`, `WaveEvidence.dfy` | the two-call wave with its one-shot signals, abort and timer, and when it fails, told from the events |
| `LockMetrics.dfy`, `LockTrace.dfy` | lock-interval accounting over an arbitrary event trace of one connection, and the same intervals told from the events alone |
| `SweepFairness.dfy` | the due-first, oldest-first, paged sweep contract |
| `LayerSharing.dfy`, `ImageArchive.dfy`, `ChainIdentity.dfy` | the two byte totals of an image pair, reading the layers of a whole archive, and what chain identities ask of the hash |
| `Csv.dfy`, `AssignmentIdentity.dfy`, `AssignmentTies.dfy` | two printers and their readers or canonical meaning, and when key order shows |
| `ConfirmationTiming.dfy`, `MutualAvailability.dfy` | the confirmation clock argument and the availability ranking |
| `Ordering.dfy`, `Arithmetic.dfy`, `MapSums.dfy`, `Wrappers.dfy` | string order, stable sorting and permutations, rounding up, sums over maps, and optional values, shared by the others |

Code that works by updating state is a class or a loop here too (`Bucket`, `Rewriter`,
`Canonicalizer`, `Search`, `Comparison`, `ContentionFenceWitness`, `WaveObject`, `Profiler`, the
layer loops); each of its methods is proved equal to a function of its old state, and the theorems
are about that function. Characters stand for UTF-16 code units and strings are compared by them;
SHA-256, `JSON.stringify` of a scalar, locale comparison and every clock are parameters, so the
results hold whatever these return, and injectivity or monotonicity is assumed only where a
contract says so.

## What is not quite as promised

Each of these is proved with a concrete case and with the exact condition under which the promise
does hold.

- `addAlias` tests the recorded owner for truthiness, so an empty raw ID counts as no owner: a
  second raw ID can take over its key and both rows end up with one reference
  (`AliasRegistry.EmptyIdMerges`). References stay distinct if and only if no empty raw ID is
  followed by another raw ID under the same key (`AliasRegistry.DistinctReferences`).
- Previews respect `maxPreviewLength` except for the literal `[missing]`, which is one character
  longer than the smallest limit a caller may ask for (`ParityTrace.PreviewBounded`).
- The controller waits for the requests while it still holds its lock in some run if and only if
  its rollback and the closing of its connection have both failed
  (`ControlledContention.HeldWhileDrainingIff`); then requests can be left blocked
  (`ControlledContention.CleanupCanFail`).
- A wave can stall until its timer fires if and only if the due-candidates policy is used with two
  calls of the same operation name (`Wave.StuckOnlyBySharedName`).
- Closing the profiler leaves no interval open, but a statement its operation did not wait for can
  complete afterwards and open one (`LockMetrics.OpenAfterClose`,
  `LockMetrics.LateCompletionStaysOpen`).
- A table whose last row is one blank cell below another row prints as a trailing line break, which
  section 2 of RFC 4180 lets a reader take as the end of the previous record (`Csv.RoundTrip`).
- `assignmentIdentity` never merges two inputs of different meaning, but keys that locale comparison
  cannot tell apart keep their insertion order. An input has the same identity as every input of
  its meaning if and only if no two kept keys of one of its objects tie
  (`AssignmentTies.CanonicalIffUntied`).

## Model

| member | source | states |
|---|---|---|
| `ShardSequencer.Shard` | scripts/ci-shard-sequencer.ts:8-45 | The loop over mutable buckets selects exactly the specified shard, which `ShardRule.SelectionIs` tells without the specification's functions; every file when sharding is off; an error for an index outside 1..count and for files without buckets |
| `ShardSequencer.DealInto` | scripts/ci-shard-sequencer.ts:34-40 | Each bucket object ends with the files and the running weight of its specified load |
| `ShardSequencer.PickLightest` | scripts/ci-shard-sequencer.ts:35-37 | The reduction finds the first of the lightest buckets |
| `ShardSequencer.OrderIsTotal` | scripts/ci-shard-sequencer.ts:24-28 | The comparator is total and transitive |
| `ShardRule.WeightIsLeast` | scripts/ci-shard-sequencer.ts:15-22 | A file's weight is the least whole number that is at least its duration times the multiplier plus the overhead, the duration being the recorded one for a recorded relative path and the fallback otherwise |
| `ShardRule.QueueIsRight` | scripts/ci-shard-sequencer.ts:12-28 | The dealing order is a permutation of the files with those weights, heaviest first and smaller paths first among equals |
| `ShardRule.ChoicesExist` | scripts/ci-shard-sequencer.ts:30-40 | Every order can be dealt so that each item goes to the first bucket no other carries less than |
| `ShardRule.SelectionIs` | scripts/ci-shard-sequencer.ts:12-45 | For every such sequence of choices, shard i is what was dealt to bucket i-1, in dealing order; no other index is selected |
| `ShardBounds.DealConserves` | scripts/ci-shard-sequencer.ts:30-40 | No file is lost or repeated, and a bucket's weight is always the sum of its files' weights |
| `ShardBounds.QueueAgreement` | scripts/ci-shard-sequencer.ts:12-28 | With distinct paths the dealing order does not depend on the discovery order |
| `ShardBounds.RunnersPartition` | scripts/ci-shard-sequencer.ts:12-45 | Runners that start from their own permutations of the same files together select every file exactly once |
| `ShardBounds.LargeItemFits` | scripts/ci-shard-sequencer.ts:24-40 | An item heavier than a third of the best largest load never pushes the lightest bucket above that load |
| `ShardBounds.PlacementBound` | scripts/ci-shard-sequencer.ts:34-40 | The bucket chosen for an item is at most the average of what any assignment must carry |
| `ShardBounds.ShardBound` | scripts/ci-shard-sequencer.ts:24-40 | Against every assignment with largest load T every shard's load L has m*L <= (2m-1)*T and 3*m*L <= (4m-1)*T |
| `ShardBounds.BoundsAsProducts` | scripts/ci-shard-sequencer.ts:24-40 | The two bounds, stated by repeated addition, are these products |
| `ShardTightness.BoundIsAttained` | scripts/ci-shard-sequencer.ts:24-40 | For every number of buckets there are files whose dealing attains the second bound, so it cannot be lowered |
| `AliasRewriter.Rewriter.Add` | scripts/scheduling-profile/parity.ts:151-166 | The alias map gains or overwrites one entry and the trie still indexes exactly the long identities |
| `AliasRewriter.Rewriter.Scan` | scripts/scheduling-profile/parity.ts:173-187 | Walking the trie finds the longest key that starts at a position, or none |
| `AliasRewriter.Rewriter.Replace` | scripts/scheduling-profile/parity.ts:167-195 | The whole string is replaced by its own alias if it has a non-empty one, whatever its length; otherwise the result is what every leftmost, longest, non-rescanning reading of the string with identities of at least eight characters gives. It depends on the alias map alone |
| `AliasRewriter.RewriteFollowsRule` | scripts/scheduling-profile/parity.ts:141-145 | Every leftmost, longest, non-rescanning reading of a string yields that replacement |
| `AliasRewriter.ReadingExists` | scripts/scheduling-profile/parity.ts:141-145 | Every string has such a reading |
| `AliasRewriter.ShortIdentitiesStay` | scripts/scheduling-profile/parity.ts:155-195 | A string that is no identity and holds none of at least eight characters is returned unchanged, so shorter ones inside it stay |
| `AliasRewriter.AddAll` | scripts/scheduling-profile/parity.ts:146-166 | A history of additions leaves a valid trie over the map it builds |
| `AliasRewriter.InsertionOrderIrrelevant` | scripts/scheduling-profile/parity.ts:151-195 | Distinct identities may be added in any order |
| `AliasRegistry.RegisterAllConsistent` | scripts/scheduling-profile/parity.ts:241-256 | After any successful history the three maps agree with each other and with the history |
| `AliasRegistry.RegisterAllExact` | scripts/scheduling-profile/parity.ts:241-256 | A history fails exactly at the first row that clashes with an earlier one: one raw ID with keys of two hashes, else one key with two raw IDs of which the earlier is not empty, else two keys of one hash; told from the rows alone |
| `AliasRegistry.DistinctReferences` | scripts/scheduling-profile/parity.ts:241-256 | For any hash function, distinct raw IDs have distinct references if and only if no empty raw ID was displaced from its key |
| `AliasRegistry.EmptyIdMerges` | scripts/scheduling-profile/parity.ts:249-250 | A concrete history in which two rows get one reference |
| `AliasExpansion.TokensAreTheCut` | scripts/scheduling-profile/parity.ts:475-490 | A text is cut at exactly its known references; there is one such cut, whose literal parts hold no known reference |
| `AliasExpansion.CutReadsText` | scripts/scheduling-profile/parity.ts:482-490 | With each reference written as itself a cut reads the text it was made from |
| `AliasExpansion.CutNames` | scripts/scheduling-profile/parity.ts:482-490 | A cut names exactly the known references that stand in the text |
| `AliasExpansion.RenderAppend` | scripts/scheduling-profile/parity.ts:479-490 | The text of a token list is the concatenation of the texts of its pieces |
| `AliasExpansion.BodyIs` | scripts/scheduling-profile/parity.ts:482-490 | A definition expands to its known references, in place, and between them to the cut of what the rewriter makes of each literal segment |
| `AliasExpansion.DependsIff` | scripts/scheduling-profile/parity.ts:479-490 | A definition depends on a known reference if and only if it stands in the definition or in the rewriting of one of its literal segments |
| `AliasExpansion.LateIdIsDependency` | scripts/scheduling-profile/parity.ts:479-490 | A raw ID that a leftmost, longest reading of a literal segment hits makes the definition depend on that ID's reference |
| `AliasResolution.SettleSound` | scripts/scheduling-profile/parity.ts:499-509 | A reference that passes the collision and owner checks extends a sound dictionary |
| `AliasResolution.ResolvedInjective` | scripts/scheduling-profile/parity.ts:499-509 | In a sound dictionary different references never share a compact alias, collisions included |
| `AliasResolution.LayeredAcyclic` | scripts/scheduling-profile/parity.ts:491-516 | If every reference could be resolved after its dependencies, the graph has no cycle |
| `AliasResolution.CycleFound` | scripts/scheduling-profile/parity.ts:494 | Meeting a reference that is being resolved exhibits a cycle of dependencies |
| `AliasResolution.ResolutionUnique` | scripts/scheduling-profile/parity.ts:491-516 | Two solutions of the graph, complete or not and found in any order, give a shared reference one alias and one meaning |
| `AliasResolution.SolutionsAgree` | scripts/scheduling-profile/parity.ts:491-516 | So the visiting order does not show in the resolved aliases |
| `AliasResolution.CollisionIsOfHash` | scripts/scheduling-profile/parity.ts:503-505 | A reported alias collision exhibits two different texts with one hash |
| `AliasResolution.CollisionExplained` | scripts/scheduling-profile/parity.ts:503-505 | The collision check fails only on a graph with two different meanings of one compact alias |
| `AliasResolution.AmbiguityExplained` | scripts/scheduling-profile/parity.ts:506-509 | The owner check fails only on a graph with two references of one meaning |
| `AliasResolution.SoundIsUnambiguous` | scripts/scheduling-profile/parity.ts:499-509 | A complete dictionary leaves neither a collision nor an ambiguity in the graph |
| `AliasResolution.FinalCheckExact` | scripts/scheduling-profile/parity.ts:519-521 | The final check passes exactly when the resolved aliases change no meaning of a reference |
| `AliasCanonicalizer.Canonicalizer.AddAlias` | scripts/scheduling-profile/parity.ts:241-256 | One registration, with its three checks, on the rewriter and the maps |
| `AliasCanonicalizer.Search.ExpandDefinition` | scripts/scheduling-profile/parity.ts:475-490 | The loop yields exactly the body that `AliasExpansion.BodyIs` describes: known references are protected and raw IDs in the remaining text are replaced by theirs |
| `AliasCanonicalizer.Search.ResolveReference` | scripts/scheduling-profile/parity.ts:491-514 | The search terminates on every graph, keeps earlier results, and on failure names a cycle, a collision or an ambiguity that the graph has |
| `AliasCanonicalizer.Canonicalizer.ResolveGraph` | scripts/scheduling-profile/parity.ts:479-516 | Resolution succeeds exactly on graphs with no cycle, no alias collision and no ambiguous meaning; success solves the defining equation of every reference |
| `AliasCanonicalizer.Canonicalizer.ResolveAll` | scripts/scheduling-profile/parity.ts:516-521 | Resolution succeeds exactly when, besides, the final aliases change no meaning; then every raw ID maps to its compact alias and replacement leaves every stored meaning unchanged |
| `AliasCanonicalizer.Canonicalize` | scripts/scheduling-profile/parity.ts:241-521 | A whole run succeeds if and only if registration does, the graph has no cycle, collision or ambiguity, and the final aliases change no meaning; each failure names a check that the graph really fails; on success every registered row's alias is the digest of its key with all references and raw IDs resolved, and distinct raw IDs have distinct aliases unless the empty raw ID was displaced |
| `JsonPointer.DecodeEscape` | src/lib/audit-change-summary.ts:82 | The two replacement passes undo the escaping of every key (section 3 of RFC 6901) |
| `JsonPointer.EscapesAre` | scripts/scheduling-profile/parity.ts:1090-1099 | A tilde is printed as ~0, a slash as ~1 and every other character as itself (section 3 of RFC 6901) |
| `JsonPointer.DecimalMeans` | scripts/scheduling-profile/parity.ts:1090-1099 | An array index is printed as its decimal digits without leading zeros |
| `JsonPointer.RoundTrip` | scripts/scheduling-profile/parity.ts:1090-1099 | Splitting and decoding a printed pointer recovers exactly its keys |
| `JsonPointer.PrintInjective` | scripts/scheduling-profile/parity.ts:1090-1099 | Different key lists print differently |
| `JsonPointer.At` | src/lib/audit-change-summary.ts:80-91 | Following a pointer reports presence exactly when every key on the way exists, and the redacted value it leads to |
| `JsonPointer.WalkPrinted` | src/lib/audit-change-summary.ts:80-91 | Walking a printed pointer reaches the value its keys name |
| `JsonPointer.PublicHidesExactlyUndo` | src/lib/audit-change-summary.ts:15-25 | Redaction leaves no undo data at any depth, and leaves a value without undo data as it is |
| `JsonPointer.PublicKeepsRest` | src/lib/audit-change-summary.ts:15-25 | Along keys that are not undo data, walking the redacted value gives what redacting the walked value gives, so nothing else is lost |
| `ParityTrace.Limit` | scripts/scheduling-profile/parity.ts:1054-1056 | A usable request is met up to the ceiling, any other gives the ceiling, and a limit never lies below its minimum |
| `ParityTrace.DefaultLimits` | scripts/scheduling-profile/parity.ts:1053-1056 | Without usable requests the limits are depth 64, 200000 visits, path length 512 and preview length 160 |
| `ParityTrace.PreviewBounded` | scripts/scheduling-profile/parity.ts:1057-1078 | A preview fits its limit if and only if it is not the missing-side marker at the smallest limit |
| `ParityTrace.TraceDecidesEquality` | scripts/scheduling-profile/parity.ts:1100-1162 | The unbounded traversal finds nothing if and only if both values are equal JSON |
| `ParityTrace.JsonFindsJson` | scripts/scheduling-profile/parity.ts:1100-1162 | On JSON inputs the traversal never reports a non-JSON value |
| `ParityTrace.EqualInputsClaimNothing` | scripts/scheduling-profile/parity.ts:1100-1162 | Equal inputs, JSON or not, never yield a claimed difference |
| `ParityTrace.ReportedPathReachesValues` | scripts/scheduling-profile/parity.ts:1090-1156 | Decoding and walking the path of the first difference reaches, on each side, the value it shows |
| `ParityFindings.FindingExplained` | scripts/scheduling-profile/parity.ts:1100-1162 | The finding of the unbounded run shows what the two sides hold at its path, is of the kind that these values call for, and nothing that the traversal passes before that path differs |
| `ParityFindings.KindsAre` | scripts/scheduling-profile/parity.ts:1100-1162 | A finding is missing-key if and only if the left side is absent at its path, extra-key if and only if the right side is, type if and only if both exist with different types, array-length if and only if both are arrays of different length, and scalar if and only if both are unequal scalars of one type |
| `ParityFindings.OneKind` | scripts/scheduling-profile/parity.ts:1100-1162 | No two values call for two kinds |
| `ParityFindings.PreviewDescribes` | scripts/scheduling-profile/parity.ts:1057-1078 | A preview is the printed scalar, the container's type and size or the missing-side marker, cut to its limit with an ellipsis when longer |
| `ParityBudgets.RunFits` | scripts/scheduling-profile/parity.ts:1100-1160 | The unbounded run keeps a limit if and only if every position it visits does, positions being the pairs of values reached along common keys before the first difference |
| `ParityBudgets.EqualVisits` | scripts/scheduling-profile/parity.ts:1100-1160 | Comparing a JSON value with itself spends one visit on each value in it and one more on each object key of either side |
| `ParityDifference.Comparison.Pointer` | scripts/scheduling-profile/parity.ts:1090-1099 | Extending a pointer character by character gives up exactly when the whole would exceed the path limit |
| `ParityDifference.Comparison.Enumerate` | scripts/scheduling-profile/parity.ts:1126-1135 | Key collection spends one visit per key, stops exactly at a budget, and otherwise yields every key once in ascending order |
| `ParityDifference.Comparison.VisitFields` | scripts/scheduling-profile/parity.ts:1140-1158 | The two-index merge agrees with visiting the union of the keys in ascending order |
| `ParityDifference.Comparison.Visit` | scripts/scheduling-profile/parity.ts:1100-1160 | The budgeted visit is conclusive exactly when the unbounded run stays within every limit, and then reports that run's finding |
| `ParityDifference.BoundedParityDifference` | scripts/scheduling-profile/parity.ts:1034-1162 | Null means equality; a result that is not truncated is the first difference of JSON values, of the kind the values at its path call for, with previews that describe them; a truncation names a limit that the unbounded run exceeds and the place where it does so; equal inputs yield at most a truncation; visits and path length respect their limits; JSON inputs within all limits are never truncated, and the limits are told by the positions visited |
| `ControlledContention.InspectSound` | scripts/scheduling-profile/controlled-contention.ts:23-39 | On a truthful lock table the leader holds the period lock and waits for the controller's room lock, and the follower is a different request that waits for the period lock |
| `ControlledContention.LeaderUnambiguous` | scripts/scheduling-profile/controlled-contention.ts:26-28 | Mutual exclusion rules out two leaders in a table without repeated rows |
| `ChainInspection.InspectExact` | scripts/scheduling-profile/controlled-contention.ts:23-39 | Over all lock tables each outcome has its exact condition on the rows: holder lost, polling on, changed or ambiguous leader, a leader alone, ambiguous follower, a follower too close, and a chain |
| `ChainInspection.PollsOnIff` | scripts/scheduling-profile/controlled-contention.ts:30-31 | On a truthful, complete table with the room held the controller polls on if and only if no request waits for the room |
| `ChainInspection.LeaderFound` | scripts/scheduling-profile/controlled-contention.ts:26-36 | On such a table a request that waits for the room is the one leader |
| `ControlledContention.RunInvariant` | scripts/scheduling-profile/controlled-contention.ts:108-188 | Every reachable state keeps mutual exclusion and ties a held lock to an open or failed controller session |
| `ControlledContention.LeaderEndsFirst` | scripts/scheduling-profile/controlled-contention.ts:130-155 | In every continuation of a proved chain the leader's transaction ends before the follower gets the period lock |
| `ControlledContention.ChainCanBeProved` | scripts/scheduling-profile/controlled-contention.ts:122-153 | A run that proves the whole chain |
| `ControlledContention.ReleasedBeforeDraining` | scripts/scheduling-profile/controlled-contention.ts:155-180 | On every exit path the controller's lock is gone before it waits for the requests, unless rollback and close both failed |
| `ControlledContention.HeldWhileDrainingIff` | scripts/scheduling-profile/controlled-contention.ts:155-180 | A run can wait for the requests with the room held and given cleanup failures if and only if rollback and close both failed |
| `ControlledContention.CleanupCanFail` | scripts/scheduling-profile/controlled-contention.ts:173-180 | A run that waits for a request which is blocked by the lock of the failed cleanup |
| `ControlledContention.NoDeadlock` | scripts/scheduling-profile/controlled-contention.ts:155-180 | Once the room is released, some unfinished request can always advance, in whatever order locks are granted |
| `ControlledContention.HeldRoomBlocks` | scripts/scheduling-profile/controlled-contention.ts:122-153 | While the controller holds the room no request gets past waiting for it |
| `ControlledContention.RequestRunsAreBounded` | scripts/scheduling-profile/controlled-contention.ts:155-180 | Requests can take only finitely many steps between them |
| `ControlledContention.DrainingEnds` | scripts/scheduling-profile/controlled-contention.ts:155-180 | Once the room is released, a run of the requests that cannot go on has ended all of them |
| `FenceWitness.ContentionFenceWitness.Run` | scripts/scheduling-profile/contention-fence-witness.ts:39-45 | A run is refused if and only if two operations are open or one has its role; otherwise it opens a record with that role and nothing else changes |
| `FenceWitness.ContentionFenceWitness.ObserveReturn` | scripts/scheduling-profile/contention-fence-witness.ts:61-69 | A returned period query gets the next ordinal, or counts as failed when a check rejects it; no other operation changes |
| `FenceWitness.AlwaysInvariant` | scripts/scheduling-profile/contention-fence-witness.ts:55-70 | In every interleaving without an abort or retry, grants, ordinals and commits tell the same story |
| `FenceWitness.OrderIsGrantOrder` | scripts/scheduling-profile/contention-fence-witness.ts:76-93 | A reported order names the transaction that was granted the lock first, which also committed first |
| `FenceWitness.OrderReportedIff` | scripts/scheduling-profile/contention-fence-witness.ts:76-93 | An order is reported if and only if two committed operations of different roles each acquired the lock once, in turn, and it names the role of the first |
| `FenceWitness.OneAcquisitionEach` | scripts/scheduling-profile/contention-fence-witness.ts:39-93 | In every reachable state with two operations an order is reported if and only if each has acquired the lock exactly once and settled |
| `FenceWitness.SettledIsFrozen` | scripts/scheduling-profile/contention-fence-witness.ts:45-70 | Once an operation has settled, no later event changes its acquisitions or its end |
| `FenceWitness.OrderIsFinal` | scripts/scheduling-profile/contention-fence-witness.ts:45-93 | Once an order can be reported no further event is possible, so it is never withdrawn or reversed |
| `Wave.WaveObject.ObserveQuery` | scripts/scheduling-concurrency/wave.ts:186-209 | A due selection is accepted once per call, and the second one releases both |
| `Wave.WaveObject.SettleCall` | scripts/scheduling-concurrency/wave.ts:107-131 | A call that fails, or lacks the evidence its policy asks for, aborts the wave |
| `Wave.Replay` | scripts/scheduling-concurrency/wave.ts:74-215 | Whatever the interleaving of its sections, the wave object is in the state of the specified run |
| `Wave.RunKeeps` | scripts/scheduling-concurrency/wave.ts:82-215 | Every run keeps the relation between signals, failures, selections and phases |
| `Wave.BlockedIff` | scripts/scheduling-concurrency/wave.ts:74-215 | Until something fails, a call that waits is held back exactly until the first call's acquisition or the second selection |
| `Wave.FailureReleasesEveryone` | scripts/scheduling-concurrency/wave.ts:74-95 | After any failure or timeout no call is blocked on a signal |
| `Wave.SecondStartsAfterAcquisition` | scripts/scheduling-concurrency/wave.ts:134-141 | Under the first-period policy the second call starts only after the first acquired the lock |
| `Wave.RendezvousNeedsBoth` | scripts/scheduling-concurrency/wave.ts:200-212 | Under the due-candidates policy no call passes its rendezvous before both selections are recorded |
| `Wave.StuckOnlyBySharedName` | scripts/scheduling-concurrency/wave.ts:118-209 | Before the timer a wave can stall if and only if due candidates are requested from two calls of one name |
| `Wave.TimerRescues` | scripts/scheduling-concurrency/wave.ts:90-94 | The timer can fire until both calls settle, and after it no call waits for a signal |
| `Wave.SuccessHasEvidence` | scripts/scheduling-concurrency/wave.ts:142-160 | A wave without a failure has both calls successful, each with the evidence of its policy |
| `WaveEvidence.FailsIff` | scripts/scheduling-concurrency/wave.ts:74-215 | A wave fails if and only if some event of its run does so: the timer, a failed call, or a call that settles without the acquisition or selection its policy asks for; told from the events alone |
| `WaveEvidence.SuccessIsPossible` | scripts/scheduling-concurrency/wave.ts:74-215 | Under every policy some run finishes without a failure, provided due candidates have two names |
| `LockMetrics.Profiler.MarkUncertain` | scripts/scheduling-profile/metrics.ts:130-143 | Both open intervals of a connection become uncertain and its transaction's scope does too, with no effect on other connections |
| `LockMetrics.Profiler.Finish` | scripts/scheduling-profile/metrics.ts:186-224 | A finished statement has its specified effect on one connection and none on the others |
| `LockMetrics.Profiler.Notify` | scripts/scheduling-profile/metrics.ts:249-291 | Errors, ends and releases of a connection, until the listeners are removed |
| `LockMetrics.Profiler.CloseAll` | scripts/scheduling-profile/metrics.ts:443-448 | Closing ends every open interval of every connection as uncertain |
| `LockMetrics.OpenNeedsCertainTransaction` | scripts/scheduling-profile/metrics.ts:186-224 | Over every trace an open interval implies an explicit transaction with no uncertain scope |
| `LockTrace.OpensIff` | scripts/scheduling-profile/metrics.ts:186-206 | An interval opens at a statement if and only if it is a granted lock of its kind, the first one since the BEGIN of a transaction that nothing has made uncertain; told from the events alone |
| `LockTrace.ReportedIffSpans` | scripts/scheduling-profile/metrics.ts:130-224 | A hold from one event to another is logged if and only if the first opens it and the second is the first end after it, undisturbed between |
| `LockMetrics.AccountedExactlyOnce` | scripts/scheduling-profile/metrics.ts:130-224 | Every opened interval is in exactly one place: reported, uncertain or still open |
| `LockMetrics.OpenIffAlive` | scripts/scheduling-profile/metrics.ts:186-224 | An interval is open if and only if nothing since its acquisition has ended it or made it uncertain |
| `LockMetrics.ReportedIffHeldThrough` | scripts/scheduling-profile/metrics.ts:208-224 | A hold is reported if and only if a successful end follows the acquisition with no BEGIN, savepoint rollback, failed end, error, release or close between |
| `LockMetrics.EntriesTellTheTrace` | scripts/scheduling-profile/metrics.ts:130-224 | Every logged interval runs from an acquisition of its kind to the event that ended it, with the times of both, the operation of the first and the reason of the second |
| `LockMetrics.OpenAfterClose` | scripts/scheduling-profile/metrics.ts:443-448 | Nothing is open right after closing, and an interval is open later if and only if a statement that completed after the close opened it |
| `LockMetrics.NothingInFlight` | scripts/scheduling-profile/metrics.ts:443-448 | If no acquisition completes after the close nothing is ever open again |
| `LockMetrics.LateCompletionStaysOpen` | scripts/scheduling-profile/metrics.ts:190-198 | A trace of three events that ends with an interval opened after the close |
| `LockMetrics.DurationsNotNegative` | scripts/scheduling-profile/metrics.ts:130-143 | With a clock that does not run backwards no logged interval has a negative length |
| `SweepFairness.PassedOver` | scripts/scheduling-profile/scenarios.ts:196-199 | An open request that is passed over had a full page of requests before it in the order |
| `SweepFairness.PassingOverAdvances` | scripts/scheduling-profile/scenarios.ts:196-226 | Passing over a request strictly lowers the total lag of the requests stamped no later |
| `SweepFairness.SelectionIs` | scripts/scheduling-profile/scenarios.ts:196-199 | A sweep selects at most 200 open requests; they come due-first and oldest-first, and an open request is left out only when 200 others come before it |
| `SweepFairness.StampIsLeast` | scripts/scheduling-profile/scenarios.ts:200-226 | A selected request that stays open is stamped with the clock, or one past its old stamp when that is later; no other request changes |
| `SweepFairness.EveryRequestIsVisited` | scripts/scheduling-profile/scenarios.ts:196-241 | While fewer than a page of requests are due at each sweep, every open request is visited within an explicit number of sweeps |
| `SweepFairness.DueIsVisited` | scripts/scheduling-profile/scenarios.ts:196-199 | A due request is visited at once while at most a page are due |
| `SweepFairness.SweepRefreshesAPage` | scripts/scheduling-profile/scenarios.ts:196-226 | With nothing due a sweep restamps a full page of stale requests, or all of them |
| `SweepFairness.OneRoundVisitsAll` | scripts/scheduling-profile/scenarios.ts:236-241 | With nothing due and every stamp before the first clock, ceil(n/200) sweeps visit all n open requests |
| `ImageArchive.CheckLayer` | scripts/image_storage_metrics.py:253-275 | A layer is accepted exactly when its member is a file of the archive, a blob's name and an uncompressed payload's digest agree with it, and no earlier size of its diff ID differs; otherwise the first failing check is named |
| `ImageArchive.FetchExact` | scripts/image_storage_metrics.py:253-263 | A layer's member is refused if and only if its path is bad, it is no file of the archive or is the config or manifest, or its blob name disagrees with its digest |
| `ImageArchive.FaultExact` | scripts/image_storage_metrics.py:264-275 | A fetched layer is refused if and only if an uncompressed payload's digest is not its diff ID or the diff ID has another size already |
| `ImageArchive.WellFormedIff` | scripts/image_storage_metrics.py:246-252 | Layer metadata is accepted if and only if names and diff IDs are equally many, at most 4096, and each diff ID is sha256: followed by 64 lower-case hexadecimal digits |
| `ImageArchive.ReadLayers` | scripts/image_storage_metrics.py:242-278 | The layer loop succeeds exactly when no layer has a fault and gives each layer the chain identity of its prefix; otherwise it names the fault of the first faulty layer |
| `ImageArchive.ReadArchive` | scripts/image_storage_metrics.py:230-287 | An archive is read if and only if every layer has its payload and one table of sizes fits all images, that is, no diff ID has two sizes anywhere |
| `LayerSharing.SummarizePair` | scripts/image_storage_metrics.py:290-315 | The loops fail exactly on inconsistent layers and otherwise count every diff ID, and every chain ID, once |
| `LayerSharing.ContentAtMostChain` | scripts/image_storage_metrics.py:302-314 | The content union never exceeds the chain-weighted union, whatever the hash does |
| `LayerSharing.PairInequalities` | scripts/image_storage_metrics.py:302-314 | Content union <= chain-weighted <= bytes(A) + bytes(B) |
| `LayerSharing.ChainBytesIdentity` | scripts/image_storage_metrics.py:87-90 | Chain-weighted bytes are at most bytes(A) + bytes(B) minus the common prefix, and exactly that when no chain IDs collide |
| `ChainIdentity.ChainIdInjective` | scripts/image_storage_metrics.py:87-90 | If the hash is injective and no diff ID is the digest of a chain text, a chain ID identifies the whole list of diff IDs below it |
| `ChainIdentity.IdealIsCollisionFree` | scripts/image_storage_metrics.py:87-90 | Such a hash is collision-free on every pair of images |
| `LayerSharing.MapsMean` | scripts/image_storage_metrics.py:302-311 | The size and chain checks fail exactly on inconsistent layers, and otherwise the maps hold each key's size once |
| `LayerSharing.ConsistentIff` | scripts/image_storage_metrics.py:302-309 | Layers are consistent if and only if some table of sizes fits their diff IDs, another fits their chain IDs, and no chain ID stands for two diff IDs |
| `LayerSharing.TotalsAreSums` | scripts/image_storage_metrics.py:302-314 | The two totals are the sums over those tables, each key once |
| `ImageArchive.ArchiveImagesAreConsistent` | scripts/image_storage_metrics.py:230-309 | Any two images of an archive that has been read fail the pair checks only if their chain IDs collide |
| `Csv.UnterminatedRoundTrip` | src/lib/csv.ts:10-32 | Reading the export by section 2 of RFC 4180, without a final line break, returns exactly the rows of cell text |
| `Csv.RoundTrip` | src/lib/csv.ts:10-32 | A reader that accepts a final line break recovers the rows if and only if the last of several rows is not a single blank cell |
| `Csv.ExportedTextIsSafe` | src/lib/csv.ts:15-24 | Exactly the unsafe strings get one apostrophe, and no exported string is unsafe |
| `Csv.UnsafeIff` | src/lib/csv.ts:15-24 | A string is unsafe if and only if it starts with a control character or its first character after leading white space is a control character or one of = + - @ and their full-width forms |
| `Csv.QuotedIff` | src/lib/csv.ts:10-24 | A cell is quoted if and only if it is unsafe or holds a quote, a comma or a line break |
| `Csv.RecordsJoin` | src/lib/csv.ts:26-32 | Records are separated by one carriage return and line feed, cells (`Csv.CellsJoin`) by one comma |
| `AssignmentIdentity.PrintInjective` | src/lib/assignment-qualification.ts:68 | Printed normal forms can be told apart, even as prefixes of longer texts |
| `AssignmentIdentity.NormalMeaning` | src/lib/assignment-qualification.ts:53-67 | Normalising keeps the meaning, whatever the key order does |
| `AssignmentIdentity.NormalOrdered` | src/lib/assignment-qualification.ts:60-67 | Normalising leaves every object in key order, each key once |
| `AssignmentIdentity.IdentityIsInjective` | src/lib/assignment-qualification.ts:50-69 | Equal identities mean equal inputs after dropping tickets and undefined fields and ignoring key order, whatever the key order does |
| `AssignmentIdentity.OrderedUnique` | src/lib/assignment-qualification.ts:63 | A meaning whose keys do not tie has only one ordered normal form |
| `AssignmentIdentity.IdentityIsMeaning` | src/lib/assignment-qualification.ts:50-69 | For inputs in which no two kept keys of one object tie, identities are equal if and only if the meanings are |
| `AssignmentIdentity.FieldCounts` | src/lib/assignment-qualification.ts:50-69 | Removing a field of an object leaves its identity as it was if and only if the field is named ticket or overrideTicket or is undefined |
| `AssignmentIdentity.TiedKeysLeakOrder` | src/lib/assignment-qualification.ts:63 | For every two kept keys that the order ties there are inputs of equal meaning with different identities |
| `AssignmentTies.CanonicalIffUntied` | src/lib/assignment-qualification.ts:50-69 | An input has the same identity as every input of its meaning if and only if no two kept keys of one of its objects tie |
| `ConfirmationTiming.EligibleIsInWindow` | src/lib/confirmation-timing.ts:30-58 | With clocks of equal rate an eligible confirmation lies at or after readyAt and before expiresAt in server time |
| `ConfirmationTiming.StateOfFinite` | src/lib/confirmation-timing.ts:30-58 | With finite times: expired exactly when the window is empty or server time plus transit has reached its end, eligible exactly when not expired and server time has reached readyAt |
| `ConfirmationTiming.TimeMovesForward` | src/lib/confirmation-timing.ts:32-58 | As time grows the countdown never increases and expired never becomes unexpired |
| `ConfirmationTiming.CountdownIsTight` | src/lib/confirmation-timing.ts:40-56 | The countdown is the least number of whole seconds after which it reaches zero |
| `ConfirmationTiming.EverEligible` | src/lib/confirmation-timing.ts:41-57 | There is a moment to confirm if and only if the window, shortened by the transit bound, is open when the ticket is ready |
| `MutualAvailability.RankingIsSorted` | src/lib/mutual-availability.ts:32-51 | The ranking is a sorted permutation of the assessed catalogue with mutual slots as a prefix |
| `MutualAvailability.MutualIff` | src/lib/mutual-availability.ts:18-41 | A slot is mutual if and only if the request is ready with a known tutor and students, and the tutor and every student choose it |
| `MutualAvailability.RankingOrder` | src/lib/mutual-availability.ts:42-51 | Of two ranked slots the mutual one comes first, then, when choices are available, the one the tutor chose, then the one that more students chose, and then the earlier day, start, end and ID |
| `MutualAvailability.StatusIff` | src/lib/mutual-availability.ts:52-60 | Each status has its exact condition on the choices themselves |
| `MutualAvailability.CatalogueOrderIrrelevant` | src/lib/mutual-availability.ts:42-51 | With unique slot IDs the whole report does not depend on the catalogue's order |
| `MutualAvailability.MutualLeavesNothingMissing` | src/lib/mutual-availability.ts:29-41 | A mutual slot implies that no tutor or student choice is missing |
| `MutualAvailability.StatusTellsFirstSlot` | src/lib/mutual-availability.ts:52-60 | The status is mutual if and only if the first ranked slot is, and missing choices never hide a mutual slot |

## Left out

- Floating point: weights, clocks and times are exact integers or reals; rounding of the execution multiplier and of millisecond arithmetic is not modelled.
- Library sorting: JavaScript's stable sorts are an insertion sort on sequences, so in-place reordering of the sorted array is not modelled; the buckets, the trie and the maps are mutable.
- Lone surrogates: `JSON.stringify` escapes them; here every character below the space, the quote and the backslash is escaped and every other one prints as itself.
- AliasCanonicalizer.Search.ResolveDefinition: expands a definition before it resolves its references, where the source alternates the two; the rewriter does not change meanwhile, so only the moment of each lookup differs.
- AliasCanonicalizer.Canonicalizer.InvertAliases: map iteration order is left open, so the result holds for every order, including the source's insertion order.
- ControlledContention.LeaderEndsFirst: concerns runs after the second proof, of which `ChainCanBeProved` gives one; whether a particular run reaches it depends on timing and the deadline, which are left open, as any failure step may happen at any point before the release.
- The rest of `canonicalizeParity`: construction of the semantic keys, normalisation of rows and receipts.
- Recognition of SQL texts (`isContentionPeriodFence`, `isDueSelection`, `planningTryLock`, `queryShape`): events arrive already classified.
- `createProfiler` beyond lock intervals: sample lifecycle, counters, CPU and event-loop figures, `summary` and `percentile`; closing is refused while a measured operation is active, which the trace does not show.
- LockMetrics.Profiler.Finish: keeps one log per connection, so the relative order of the intervals of one operation across connections is not modelled.
- `elapsedMs` of an acquisition, `buildContentionFenceEvidence` and everything about audit rows.
- Wave receipts, recorded offsets and the check that the two calls overlapped; `AsyncLocalStorage` is the index of the call.
- The driver of the sweep scenario: visit triggers, the wall-clock window of requests that become terminal, and result records.
- Tar and JSON parsing of the archive, config identities, tags, manifest digests, layer and chain counts and `summarize_pairs`; `_path` is a parameter.
- Batches, counts and labels of `auditChangeSummary`; `recordedEvidenceDiff` is not part of this model.
- User interface, database, network and file access, and the role and filter tables.
