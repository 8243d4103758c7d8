# Route-event analysis: a Dafny model

The program reconstructs what a maintenance event did to BGP routes: it
downloads and parses archives with a bounded pair of worker pools, simulates
every observer-prefix stream through its route transitions, clusters the
transitions into waves, and derives a verdict. Everything it reports must be
the same however its threads interleave and in whatever order its inputs come.
This project models that logic and proves what it promises; where a promise
fails, it proves exactly when it holds.

## The parts

- **Pipeline** (`Pipeline`, `PipelineProofs`, `PipelineTheorems`,
  `PipelineMemory`, `PipelineEngine`, `UpdatePipeline`, `Admission`). The two
  worker pools, the queue, the bounded channel, the receiver lock (a parse
  worker holds it while it blocks), the senders and the cancel flag form a
  transition system: a schedule is any sequence of enabled atomic steps, for
  any numbers of workers. `PipelineEngine.Engine` is the same system as an
  object whose fields its threads update in place; each of its step methods is
  proved to be one step of the system.
- **Stream lifecycles** (`Routes`, `Text`, `Fingerprint`, `Lifecycle`,
  `LifecycleBuilder`, `LifecycleProofs`, `LifecycleRuns`, `LifecycleHistory`,
  `Departures`, `Restorations`, `Absences`, `Records`, `Cohort`, whose file also
  holds `Observations`, and `Streams`).
  `LifecycleBuilder.BuildOneLifecycle` is the simulation loop;
  `Lifecycle.Simulate` specifies it as four folds; `LifecycleProofs`,
  `LifecycleRuns` and `LifecycleHistory` say what the accumulated counters,
  categories, flags and times mean in terms of the whole run, recorded as a
  `Trace` of (before, transition, after) moments. `Records` reads every field of a
  record off the transitions and what is active between them.
- **Waves** (`Runs`, `Waves`, `WaveProofs`, `WaveRepresentatives`, `WaveLabels`).
  Clustering by time, label, peak window.
- **Determinism and verdict** (`CacheKeys`, `ObservationOrder`, `Discover`,
  whose file also holds `Archives`, `Assess` and `Verdicts`).
- `Prelude`, `Seqs`, `Sorting` and `Orders` hold the library notions the
  program relies on: results, the standard stable sort, comparators.

Times are instants in nanoseconds; `NumSeconds` and `NumMinutes` truncate as
the time library does. Collectors, peers and prefixes are strings; two peers
are equal when their text forms are. AS numbers and path identifiers have
their 32-bit range (`U32`; path identifiers are those of section 2 of RFC 7911).

## Where the code departs from its own documentation

- The pipeline documents at most `download_jobs + parse_jobs` items in flight.
  The code allows `download_jobs + 2 * parse_jobs`. The documented bound holds
  for every behaviour of the downloads and every schedule exactly when there are
  no more items than `download_jobs + parse_jobs`
  (`PipelineMemory.DocumentedBoundExactly`).
- `stream_withdrawal_count` also rises on a withdrawal that arrives while the
  stream is already absent (`Departures.WithdrawnTwice`); it counts absences exactly
  when no such withdrawal occurs
  (`LifecycleProofs.WithdrawalCountAsDocumentedExactly`).
- Such a withdrawal also moves `stream_withdrawal_time` and `transit_at_withdrawal`
  (`Departures.WithdrawnTwice`). They belong to the moment at which the stream last
  became absent exactly when the last withdrawal that left nothing found something
  (`Departures.WithdrawalTimeExactly`).
- `active_before_absence` is 1 for every withdrawn stream
  (`LifecycleHistory.ActiveBeforeAbsenceMeaning`), also where there was nothing
  (`Departures.WithdrawnTwice`). It is the documented number exactly when the last
  withdrawal that left nothing found something
  (`LifecycleHistory.ActiveBeforeAbsenceExactly`).
- `final_state` is cleared by a withdrawal even if other instances stay active
  (`Departures.FinalStateOfTwo`). It tells whether anything is active, for every run
  of a stream that withdraws or sets anything, exactly when there is at most one path
  identifier (`Departures.FinalStateAsDocumentedExactly`).
- `exact_instance` compares with the oldest withdrawn state on record, not with
  the last known one (`Restorations.LastStateNotRecognised`). It is the documented
  comparison, whatever returns, exactly when the oldest and the newest state on
  record are equivalent (`Restorations.ExactAsDocumentedExactly`).
- `old_path_ids` misses a withdrawal whose previous route is unknown
  (`Restorations.UnnamedWithdrawal`). It lists what was withdrawn since the last
  return exactly when every identifier withdrawn has a withdrawal that names its
  previous route (`Restorations.OldIdsAsDocumentedExactly`).
- A stream that departs and returns without a withdrawal is never `restored`
  (`Restorations.AwayAndBack`): an admitted stream is restored exactly when it was withdrawn
  and something matches at the end (`Restorations.RestoredMeaning`). A run is as
  documented unless it departs, is never withdrawn and matches at the end
  (`Restorations.RestoredRunExactly`); all runs of some kinds of transitions are
  exactly when these are withdrawals (`Restorations.RestoredAsDocumentedExactly`).
- `restoration_time` can be set before anything was lost
  (`Restorations.RestoresWithoutLoss`). For admitted streams and transitions that follow on
  from the active routes it comes after a withdrawal or a departure exactly
  when there is at most one path identifier (`Restorations.RestoresAfterLossExactly`).
- `replacement_appeared` is set by any route at all
  (`Departures.AppearsFromNothing`). It means a replacement, after a withdrawal or a path change,
  for all runs of some kinds of transitions exactly when these are withdrawals
  and path replacements (`Departures.ReplacementAsDocumentedExactly`).
- `Unchanged` is documented as a stream without transitions, but a transition of any kind
  can leave it so (`Departures.QuietOfAnyKind`). A run is as documented exactly when it is
  empty, or some transition empties the stream, leaves it off the transit or changes
  the path in a way that counts (`Departures.UnchangedAsDocumentedExactly`).
- An absence is documented to require the loss of the last instance, but a withdrawal
  for a stream without instances begins one, too (`Absences.AbsentWithoutLoss`).
  It does in some run exactly when the baseline is empty
  (`Absences.AbsencesBeginWithLossExactly`).
- The absence extremes are documented as missing only for streams never withdrawn,
  but absences of less than a second are not recorded
  (`Absences.WithdrawnAtTheEnd`). It is so exactly when a stream that was withdrawn has an
  absence of at least one second (`Absences.MissingAsDocumentedExactly`).
- The wave label `StreamWithdrawal` is supported by any withdrawn instance. Each such
  transition is the withdrawal of a stream, for every run, exactly when there is at most one
  path identifier (`Departures.LabelMeansAbsenceExactly`).
- `DepartedTransitPath` is documented as visible without any matching route, but
  one instance that leaves the transit is enough
  (`Departures.DepartedWhileOnTransit`). The documented meaning holds for every run of a
  stream exactly when it has at most one path identifier
  (`Departures.DepartedAsDocumentedExactly`).
- A path change between collapsed-equal paths of one length is called a prepend
  increase (`Departures.IncreaseWithoutLonger`), and these are the only increases
  that are not longer paths (`Departures.IncreaseMeansLongerExactly`).
- A stream is admitted if any of its RIB entries matches, but a later entry
  with the same route key may overwrite the match
  (`Cohort.BaselineMatchesExactly`, `Cohort.OverwrittenMatch`).
- Prepending is invisible to every transit predicate except `Adjacent(a, a)`
  (`Routes.PrependingIsInvisibleExactly`), and for that one alone a change of the
  predicate can go unclassified (`Routes.ClassificationExactly`).
- Communities are documented to compare as sets, but a repeated one counts
  (`Routes.RepeatedCommunity`). Lists that hold every community at most n
  times compare as sets exactly when n is at most 1
  (`Routes.CommunitiesCompareAsSetsExactly`).
- The wave gap is compared in whole seconds, so it may exceed `max_gap_secs` by
  almost one second (`WaveProofs.AlmostOneSecondMore`). The comparison is the documented one
  for all times exactly when the limit is negative or reaches the last nanosecond
  before the next whole second (`WaveProofs.GapAsDocumentedExactly`).
- The representative paths of a wave follow the input order on a tie of time and
  path identifier (`WaveProofs.RepresentativeFollowsInput`). They are the same for
  every order exactly when transitions that tie with the first of a wave share its
  paths (`WaveRepresentatives.RepresentativesIgnoreOrderExactly`).
- A wave counts streams by the text `collector:peer:prefix`, and two IPv6
  streams can share it (`WaveProofs.StreamTextsCollide`). The texts of all streams over
  some collectors and peers differ exactly when no text `collector:peer:`
  begins another (`WaveProofs.TextsTellApartExactly`).
- Of two equally new RIBs the later listed one is chosen
  (`Discover.RibTieFollowsInput`). The choice is the same for every input order exactly when
  all newest candidates are the same item (`Discover.RibIgnoresOrderExactly`).
- The start of an UPDATE file is documented to come from its name when that is more than
  30 minutes off, but 30 minutes and 59 seconds are not enough
  (`Discover.AlmostOneMinuteMore`). It is as documented exactly when the name is not
  off by more than 30 and less than 31 minutes (`Discover.OverrideAsDocumentedExactly`).
- UPDATE selection claims a total order. Starts and URLs are indeed independent
  of the input order, but which of two items of one URL and one start is kept is
  not (`Discover.SelectionFixedExactly`).
- Gap validation compares neighbours only. Without a report everything is
  covered, but a report can be spurious (`Discover.SpuriousGap`): every reported gap is
  really uncovered exactly when no file bridges it
  (`Discover.ReportsAreHolesExactly`).
- Cache keys and set hashes are unambiguous for all names and parser versions over an
  alphabet exactly when the bar is not in it (`CacheKeys.RibKeysDifferExactly`,
  `CacheKeys.UpdateKeysDifferExactly`, `CacheKeys.SetHashesDifferExactly`); a bar
  in any one name makes some other names collide (`CacheKeys.BarsCollide`,
  `CacheKeys.UpdateBarsCollide`, `CacheKeys.StreamBarsCollide`).

## Model

| member | source | states |
|---|---|---|
| `PipelineTheorems.EveryIndexInOnePlace` | src/pipeline.rs:41-89 | after any schedule each index is in exactly one of queue, a download worker, channel, a parse worker, a slot (or given up after cancellation), and the channel holds at most `parse_jobs` entries |
| `PipelineProofs.InitInv` | src/pipeline.rs:44-50 | the initial state satisfies the invariant |
| `PipelineProofs.StepKeepsInv` | src/pipeline.rs:52-89 | every enabled step of any thread keeps the invariant: one place per index, honest contents, lock and channel discipline |
| `PipelineProofs.ScheduleKeepsInv` | src/pipeline.rs:52-89 | so does every schedule |
| `PipelineTheorems.StepReducesWork` | src/pipeline.rs:52-89 | every step lowers a natural-number measure |
| `PipelineTheorems.SchedulesAreBounded` | src/pipeline.rs:52-89 | no schedule is longer than 7n + D + 2P + 2 steps: no livelock |
| `PipelineTheorems.SomeThreadCanStep` | src/pipeline.rs:56-86 | until all threads have ended some thread can step: no deadlock, with the receiver lock held during `recv` |
| `PipelineTheorems.EveryScheduleCanFinish` | src/pipeline.rs:51-89 | whatever happened so far, the threads can be run to the end |
| `PipelineTheorems.TakenInOrder` | src/pipeline.rs:44-57 | after any schedule the queue holds the last indices in order: items are taken up in input order |
| `PipelineTheorems.NothingStartsAfterCancel` | src/orchestrate.rs:1377-1434 | once the flag is raised no schedule begins another download |
| `PipelineTheorems.JoinedMeansFilled` | src/orchestrate.rs:1377-1434 | when all threads have ended, every slot is filled or cancellation was requested; without a cancel check every slot is filled |
| `PipelineTheorems.EveryRunIsSequential` | src/pipeline.rs:25-108 | every complete run of the plain engine, for any worker counts and interleaving, merges to the sequential result |
| `PipelineTheorems.UncancelledIsSequential` | src/orchestrate.rs:1436-1507 | so does every complete run of the cancellable pipeline in which the flag was never raised |
| `PipelineTheorems.MergedIsSequential` | src/pipeline.rs:91-108 | the ordered merge over honestly filled slots is the sequential result |
| `PipelineTheorems.SequentialMeaning` | src/pipeline.rs:19-24 | that result is `Ok` with each item's own pair in input order, or the failure of the lowest-index failing item |
| `PipelineMemory.InFlightIsBounded` | src/pipeline.rs:48-86 | never more than D + 2P items, nor more than n, are in flight |
| `PipelineMemory.DocumentedBoundExactly` | src/pipeline.rs:10-11 | cancellable or not: the documented bound D + P holds for every download function and every schedule if and only if n is at most D + P |
| `PipelineEngine.Engine.StepDownloader` | src/pipeline.rs:56-73 | one atomic action of a download worker, on the shared fields, is the step of the transition system |
| `PipelineEngine.Engine.StepParser` | src/pipeline.rs:79-86 | the same for a parse worker |
| `PipelineEngine.Engine.Run` | src/pipeline.rs:51-89 | running the threads in any order ends with all of them stopped and the invariant kept |
| `PipelineEngine.Engine.Merge` | src/pipeline.rs:91-108 | the merge loop returns the lowest-index failure or the results in order |
| `PipelineEngine.RunBoundedPipeline` | src/pipeline.rs:25-108 | clamps the worker counts, runs the engine, returns the sequential result |
| `UpdatePipeline.PlanUpdates` | src/orchestrate.rs:661-697 | archive orders follow discovery order, strictly increasing; of each URL exactly the first archive is kept |
| `UpdatePipeline.FirstFailureMeaning` | src/orchestrate.rs:1465-1469 | the failure the merge keeps is that of the lowest index whose slot holds one |
| `UpdatePipeline.JoinedMeansRecorded` | src/orchestrate.rs:1377-1434 | the slots hold every item's own result, or nothing where the flag was raised |
| `UpdatePipeline.MergeUpdates` | src/orchestrate.rs:1436-1507 | the merge that puts an empty result into failed and skipped places, and fails with the lowest recorded failure or, without one, on cancellation |
| `UpdatePipeline.ProcessUpdatesPipeline` | src/orchestrate.rs:1342-1507 | an `Ok` result is every archive's own result in order and cancellation was not observed; otherwise the lowest failure that was recorded, or the cancelled marker if none was |
| `UpdatePipeline.IngestUpdates` | src/orchestrate.rs:661-722 | planning and pipeline together: every discovered URL is processed once, none skipped in an `Ok` result |
| `Admission.AdmitUpdates` | src/orchestrate.rs:1236-1270 | admitted are exactly the observations of target streams among those that parse, in order; every counter is exact |
| `Admission.AdmittedExactly` | src/orchestrate.rs:1236-1270 | an observation is admitted if and only if it parsed and its collector lists a target stream of its peer and its prefix |
| `Admission.OthersAreNotAdmitted` | src/target.rs:120-130 | with one target stream, an observation of the prefix from another peer or collector is not admitted |
| `Admission.ChecksMeaning` | src/orchestrate.rs:1236-1270 | what the prefix and collector checks ask for, in terms of the target streams |
| `Routes.CollapseAsPath` | src/lifecycle.rs:27-35 | the loop computes the collapse |
| `Routes.CollapseIdempotent` | src/lifecycle.rs:27-35 | collapsing again changes nothing |
| `Routes.CollapseRemovesRepeats` | src/lifecycle.rs:27-35 | no two neighbours are equal afterwards |
| `Routes.CollapseIgnoresPrepending` | src/lifecycle.rs:27-40 | repeating any element next to itself does not change the collapse |
| `Routes.CollapseKeepsMembers` | src/lifecycle.rs:27-35 | exactly the same AS numbers remain |
| `Routes.CollapseKeepsNeighbours` | src/lifecycle.rs:27-35 | two different AS numbers are adjacent before if and only if after |
| `Routes.PrependingIsInvisibleExactly` | src/domain/route.rs:228-248 | paths with equal collapse agree on a transit predicate, for all paths, if and only if it is not `Adjacent(a, a)` |
| `Routes.EvaluateMeaning` | src/domain/route.rs:228-248 | some number in common; all numbers included; the two side by side somewhere, in either order |
| `Routes.ClassificationIsExact` | src/lifecycle.rs:66-97 | each of the six classes if and only if: equal collapse and shorter or not; different collapse and the predicate before and after; departed and returned exactly when the predicate changed that way, except for prepending that it sees |
| `Routes.ClassificationExactly` | src/lifecycle.rs:66-97 | for any predicate: departures, and returns, are classified exactly on all paths if and only if it does not see prepending |
| `Routes.CommunitiesCompareAsMultisets` | src/lifecycle.rs:124-129 | sorted lists are equal if and only if the multisets are |
| `Routes.RepeatedCommunity` | src/lifecycle.rs:108-129 | a list with a repetition differs from the list without, though the sets are the same |
| `Routes.CommunitiesCompareAsSetsExactly` | src/lifecycle.rs:108-129 | for all lists that hold every string at most n times, sorted equality is equality of sets, if and only if n is at most 1 |
| `Routes.SemanticEqualityMeaning` | src/lifecycle.rs:113-130 | semantic equivalence is equality of all compared attributes, communities up to order |
| `Text.JoinReadsBack` | src/lifecycle.rs:133-153 | a joined list followed by its closing character can be read back |
| `Fingerprint.FingerprintIsSemantics` | src/lifecycle.rs:133-153 | fingerprints are equal if and only if the routes are semantically equivalent |
| `Cohort.FreezeCohort` | src/cohort.rs:37-115 | the frozen cohort is what the specification says: admitted streams and their baseline instances |
| `Cohort.AdmissionExactly` | src/cohort.rs:37-65 | a stream is admitted if and only if some RIB entry of it has attributes, a target as its first origin (0 without origins) and a matching path |
| `Cohort.BaselineExactly` | src/cohort.rs:65-115 | a baseline holds for every path identifier the attributes and time of the last such entry of the RIB, and nothing else |
| `Cohort.BaselineMatchesExactly` | src/cohort.rs:65-115 | an admitted stream has a matching baseline instance if and only if some matching entry is not overwritten by a later one with its key |
| `Cohort.AdmissionMeansMatching` | src/cohort.rs:65-115 | with distinct route keys admission guarantees a non-empty baseline with a matching instance |
| `Cohort.OverwrittenMatch` | src/cohort.rs:65-115 | a concrete RIB whose stream is admitted without any matching instance |
| `Cohort.BaselineKeysOwn` | src/cohort.rs:92-115 | baseline instances belong to their own stream |
| `LifecycleBuilder.BuildOneLifecycle` | src/lifecycle.rs:923-1320 | the loop over transitions, with its mutable state, yields the specified record |
| `LifecycleBuilder.Advance` | src/lifecycle.rs:1043-1208 | one turn of the loop: the active instances first, then tally, ledger and findings from them |
| `LifecycleHistory.LastWithdrawalMeaning` | src/lifecycle.rs:1074-1101 | over whole runs: withdrawal time, instances before the absence and transit at withdrawal are those of the last withdrawal that left nothing, and unset without one |
| `LifecycleHistory.WithdrawnInstancesMeaning` | src/lifecycle.rs:1082 | every withdrawal's key is listed, in order, active or not |
| `LifecycleHistory.ActiveBeforeAbsenceMeaning` | src/lifecycle.rs:1094 | 1 for a withdrawn stream, 0 for any other |
| `LifecycleHistory.ActiveBeforeAbsenceExactly` | src/lifecycle.rs:1094 | it is the number of instances before the last such withdrawal if and only if that withdrawal found one |
| `LifecycleHistory.FindingsMeaning` | src/lifecycle.rs:1067-1208 | first change, restoration time, replacement and its transit are those of the first such moment of the run; the final state is what the last withdrawal or route left |
| `LifecycleHistory.FinalStateForgetsOthers` | src/lifecycle.rs:1101 | a final withdrawal clears the final state and removes one instance, whatever else is active |
| `Departures.FinalStateOfTwo` | src/lifecycle.rs:1101 | two instances, one withdrawn: no final state, the other active |
| `Departures.FinalStateAsDocumentedExactly` | src/lifecycle.rs:1101-1109 | for all runs over a set of path identifiers that withdraw or set anything, a final state is present exactly when something is active, if and only if the set has at most one member |
| `Departures.WithdrawnTwice` | src/lifecycle.rs:1085-1099 | the run of one instance withdrawn twice: count 2, one absence, time and transit of the second withdrawal, one instance before it where there was none |
| `Departures.WithdrawalTimeExactly` | src/lifecycle.rs:1093 | the withdrawal time is that of the last withdrawal that left nothing; this is the last change from visible to absent if and only if it found something |
| `Departures.AppearsFromNothing` | src/lifecycle.rs:1106-1115 | any other kind of transition that sets a route counts as a replacement on its own |
| `Departures.ReplacementAsDocumentedExactly` | src/lifecycle.rs:1106-1115 | for all runs over a set of kinds, a replacement appears exactly when a path replacement, or a transition after a withdrawal, sets a route, if and only if the set holds withdrawals and path replacements only |
| `Departures.QuietOfAnyKind` | src/lifecycle.rs:1221-1232 | for every kind a run of one such transition with category `Unchanged` |
| `Departures.UnchangedMeaning` | src/lifecycle.rs:1221-1232 | a stream is `Unchanged` if and only if no transition empties it, leaves it off the transit, or replaces its path by a departure, a prepending or another path through the transit |
| `Departures.UnchangedAsDocumentedExactly` | src/lifecycle.rs:1221-1232 | `Unchanged` means no transitions for a run if and only if it has none, or one of those |
| `Departures.LabelMeansAbsenceExactly` | src/lifecycle.rs:752-755 | every transition that supports `StreamWithdrawal` leaves nothing active, for all runs over a set of path identifiers, if and only if it has at most one member |
| `LifecycleHistory.ExtremesMeaning` | src/lifecycle.rs:1234-1241 | the shortest and longest absence are members and bounds of the list, and missing exactly for an empty one |
| `LifecycleHistory.AffectedDurationMeaning` | src/lifecycle.rs:1243-1246 | whole seconds from the first event change to the first restoring moment or the end, never negative |
| `LifecycleHistory.RecordMeaning` | src/lifecycle.rs:1212-1320 | first change, restoration time, withdrawal time, replacement, baseline return and instances before the absence of a record, as moments of its run |
| `LifecycleHistory.RecordRoutesMeaning` | src/lifecycle.rs:1212-1320 | final state, retained transit, transit at withdrawal and withdrawn instances of a record, as moments of its run |
| `Records.CyclesMeaning` | src/lifecycle.rs:1269-1270 | several cycles if and only if two withdrawals of the run left nothing, or one did and the stream came back twice; with a non-empty baseline, if and only if two did |
| `Records.AmbiguityMeaning` | src/lifecycle.rs:1408-1470 | ambiguous if and only if keys with and without path identifier both occur in the baseline or the run |
| `Records.RestorationFlagsMeaning` | src/lifecycle.rs:1248-1259 | not restored if and only if nothing matches at the end, after a withdrawal that left nothing or off the transit; restored if and only if not so and the stream came back at some point |
| `Records.ShapeMeaning` | src/lifecycle.rs:66-130 | each shape of a path change by kind, routes, collapsed paths and the predicate |
| `Records.CategoryExactly` | src/lifecycle.rs:1143-1232 | the category by what happened: emptied, departed, rerouted on the transit, prepended, nothing |
| `Records.PrependingMeaning` | src/lifecycle.rs:1156-1164 | prepending changed if and only if some path replacement between different routes has equal collapses |
| `Records.TimesMeaning` | src/lifecycle.rs:1067-1208 | first change, restoration and last withdrawal are the times of the first event transition, of the first that makes visible again or reaches the transit, and of the last that empties |
| `Records.AffectedMeaning` | src/lifecycle.rs:1243-1246 | affected duration: whole seconds from the first change to the restoration time or the end |
| `Records.RoutesMeaning` | src/lifecycle.rs:1067-1208 | final state, replacement, transit of the first replacement and of the last loss, return to the baseline |
| `Records.NumbersMeaning` | src/lifecycle.rs:1043-1117 | instance counts: at the beginning, at most at once, ever; withdrawals that left nothing |
| `Records.BaselinePathMeaning` | src/lifecycle.rs:1259-1264 | the baseline path is that of the instance without path identifier, or with the least |
| `Records.RecordRestorations` | src/lifecycle.rs:1119-1141 | the restorations of a record are those of the moments at which the stream became visible again |
| `Records.ListsMeaning` | src/lifecycle.rs:1043-1066 | every transition is listed with its time, phase, kind, path identifier, two paths, shape and observation, in the list of its phase |
| `Absences.AbsencesMeaning` | src/lifecycle.rs:1085-1141 | the absences of a run are exactly those stretches that begin with a withdrawal that leaves nothing, the first one since the stream last came back, and last to the next return or to the end of the run |
| `Absences.AbsencesAreDisjoint` | src/lifecycle.rs:1085-1141 | they are in order of the run, and each ends before the next begins |
| `Absences.AbsentExactlyWithin` | src/lifecycle.rs:1085-1141 | after any number of transitions the stream is inside an absence if and only if nothing is active and some withdrawal has left nothing |
| `Absences.AbsentWithoutLoss` | src/lifecycle.rs:1085-1141 | a withdrawal for a stream without instances begins an absence |
| `Absences.AbsencesBeginWithLossExactly` | src/lifecycle.rs:846-1094 | every absence of every run begins with the loss of the last instance, if and only if the baseline is not empty |
| `Absences.RecordedAbsences` | src/lifecycle.rs:1119-1218 | what is recorded, the open absence closed at the end of the cooldown, is the list of the whole seconds of these absences, without those of less than one |
| `Absences.AbsencesInTime` | src/lifecycle.rs:1119-1218 | in a chronological run none ends before it begins, and none begins before an earlier one ends |
| `Absences.AbsencesAreBounded` | src/lifecycle.rs:1119-1241 | for a chronological run recorded absences are positive and sum to at most the time from the first withdrawal that left nothing to the end of the cooldown |
| `Absences.RecordDurationsMeaning` | src/lifecycle.rs:1212-1246 | shortest and longest absence of a record are the extremes of the whole seconds of the absences of its run; affected duration as above |
| `Absences.MissingAsDocumentedExactly` | src/lifecycle.rs:290-293 | the extremes are missing exactly for streams never withdrawn, if and only if a stream that was withdrawn has an absence of at least one second |
| `Absences.WithdrawnAtTheEnd` | src/lifecycle.rs:1212-1241 | a stream withdrawn less than a second before the end has no extremes |
| `LifecycleBuilder.BookRestoration` | src/lifecycle.rs:1119-1141 | restoration bookkeeping; what it amounts to over a run is `Restorations.RestorationsMeaning`, `Restorations.HistoryMeaning` and `Absences.RecordedAbsences` |
| `LifecycleBuilder.MarkCategories` | src/lifecycle.rs:1143-1198 | which categories one transition puts into the set, and whether it restores |
| `LifecycleBuilder.FingerprintsMatch` | src/lifecycle.rs:1364-1380 | comparing the two sorted fingerprint lists decides equality of fingerprint counts |
| `LifecycleBuilder.DetectStreamAmbiguity` | src/lifecycle.rs:1408-1470 | ambiguous exactly when keyed and unkeyed records both occur; the evidence is the first keyed and the first unkeyed record, every archive name once where it is mentioned first, and the times of the first and last transition |
| `Records.EvidenceMeaning` | src/lifecycle.rs:1408-1470 | the observations of the first transition with and the first without path identifier, and the times of the first and the last |
| `Records.ArchivesMeaning` | src/lifecycle.rs:1443-1456 | exactly the archives that some transition names, each once, in the order they are first named, URL before checksum |
| `Seqs.FirstMentionsMeaning` | src/lifecycle.rs:1443-1456 | so the archive names are those mentioned, none twice |
| `LifecycleBuilder.Conclude` | src/lifecycle.rs:1212-1320 | category, flags, extremes and durations from the end state; for what they mean see `LifecycleProofs.CategoryMeaning`, `Restorations.RestoredMeaning` and the record lemmas above |
| `LifecycleProofs.CountersMeaning` | src/lifecycle.rs:1085-1141 | the withdrawal and restoration counters count the moments of the run that empty, and that refill, the active set |
| `LifecycleProofs.WithdrawalLedger` | src/lifecycle.rs:1085-1141 | withdrawals and an absent start balance restorations, an absent end and withdrawals while absent; restorations never exceed withdrawals plus one for an empty baseline |
| `LifecycleProofs.WithdrawalCountAsDocumentedExactly` | src/lifecycle.rs:1085-1094 | the withdrawal count is the number of visible-to-absent changes if and only if no withdrawal arrives while absent |
| `LifecycleProofs.CategoryMeaning` | src/lifecycle.rs:1221-1232 | the category is the first that the whole run deserves, in the order of precedence |
| `LifecycleProofs.WithdrawnMeansAbsentOnce` | src/lifecycle.rs:1073-1117 | with a non-empty baseline, `Withdrawn` if and only if the stream was absent at some point of the run |
| `LifecycleProofs.MildCategoriesStayOnTransit` | src/lifecycle.rs:1145-1232 | `Unchanged`, `PrependOnly` and `PathChangedStillViaTransit` mean that after every transition some active route satisfied the predicate |
| `Departures.DepartedWhileOnTransit` | src/lifecycle.rs:1168-1170 | two matching instances, one leaves: the category is `DepartedTransitPath` although the stream was never off the transit |
| `Departures.DepartedAsDocumentedExactly` | src/lifecycle.rs:1143-1198 | over any runs of a stream whose path identifiers come from a set, the category means visible without a matching route at some point, if and only if the set has at most one member |
| `Departures.PrependMarkedMeaning` | src/lifecycle.rs:1156-1164 | `PrependOnly` is marked by a run if and only if it has a material replacement between collapsed-equal paths |
| `Departures.IncreaseMeansLongerExactly` | src/lifecycle.rs:66-97 | a prepend increase means a longer path, except exactly between collapsed-equal paths of one length |
| `Departures.IncreaseWithoutLonger` | src/lifecycle.rs:66-97 | a concrete such pair |
| `LifecycleProofs.NotRestoredMeaning` | src/lifecycle.rs:1248-1258 | for any baseline, exactly when a stream counts as not restored |
| `LifecycleProofs.AdmittedNotRestored` | src/lifecycle.rs:1248-1258 | with a matching baseline, not restored if and only if no active instance matches at the end; restored implies one does |
| `LifecycleProofs.BaselineSetMeaning` | src/lifecycle.rs:1364-1380 | at a restoration `baseline_set` holds if and only if the baseline has one instance and the route is equivalent to it |
| `Restorations.RestorationsMeaning` | src/lifecycle.rs:1119-1141 | the restorations of every run are those of its returns, one each, in order: time, new and old path identifiers; exact if and only if the route is that of the oldest record of its identifier, or without one that of its baseline; equivalent if and only if some baseline route is the same; baseline set if and only if the baseline has one instance and that is so |
| `Restorations.ReturnsMeaning` | src/lifecycle.rs:1119-1123 | the returns are exactly the moments at which an absent stream becomes visible |
| `Restorations.ReturnsInOrder` | src/lifecycle.rs:1119-1123 | they are listed in strict order of the run, so none twice |
| `Restorations.HistoryMeaning` | src/lifecycle.rs:1080-1084 | over whole runs: the history holds, in order, the withdrawals since the last return that name their previous route |
| `Restorations.OldPathIdsMeaning` | src/lifecycle.rs:1382-1389 | the old path identifiers are those on record, strictly ordered |
| `Restorations.OldIdsAsDocumentedExactly` | src/lifecycle.rs:1382-1389 | they are the identifiers withdrawn since the last return if and only if each of these has a withdrawal that names its previous route |
| `Restorations.UnnamedWithdrawal` | src/lifecycle.rs:1080-1084 | the run of one instance withdrawn without a previous route and announced again: its restoration has no old path identifiers |
| `Restorations.LastStateNotRecognised` | src/lifecycle.rs:1339-1347 | a run of two instances at whose end the last known state of one returns and `exact_instance` is false |
| `Restorations.ExactAsDocumentedExactly` | src/lifecycle.rs:1339-1362 | for a history and a key: whatever returns is compared as with the newest recorded state, if and only if oldest and newest are equivalent |
| `Restorations.RestoredMeaning` | src/lifecycle.rs:1248-1259 | with a matching baseline: restored if and only if the category is `Withdrawn` and some active route matches at the end |
| `Restorations.AwayAndBack` | src/lifecycle.rs:1248-1259 | for any path identifier and any kind but withdrawals, a run of two such transitions that departs and returns and is not restored |
| `Restorations.RestoredRunExactly` | src/lifecycle.rs:1248-1259 | restored means lost at some point and matching at the end for a run of an admitted stream, unless exactly: it departs, is never withdrawn and matches at the end |
| `Restorations.RestoredAsDocumentedExactly` | src/lifecycle.rs:1248-1259 | so it is for all admitted runs of some kinds of transitions, if and only if these are withdrawals |
| `Restorations.RestoresWithoutLoss` | src/lifecycle.rs:1171-1175 | one instance matches all along, another returns to the transit: the restoration time is set |
| `Restorations.RestoresAfterLossExactly` | src/lifecycle.rs:1119-1175 | for all admitted baselines and coherent runs over a set of path identifiers, whatever restores comes after an absence or a departure, if and only if the set has at most one member |
| `LifecycleRuns.ActiveIsDeclared` | src/lifecycle.rs:1073-1117 | at every key the active map holds what the last effective transition left, or the baseline |
| `LifecycleRuns.OrderAcrossKeysIsIrrelevant` | src/lifecycle.rs:1073-1117 | any reordering that keeps each key's own order ends with the same active map |
| `LifecycleRuns.SortingKeepsActive` | src/lifecycle.rs:859-866 | the stable sort by time and path identifier is such a reordering for input chronological per key |
| `LifecycleRuns.ChronologicalMeaning` | src/lifecycle.rs:859-866 | the order is by time, at one time without path identifier first and then by number |
| `LifecycleRuns.ListsPartitionTransitions` | src/lifecycle.rs:1043-1066 | main and cooldown lists are the transitions of the two phases, in order, and together as many as the input |
| `LifecycleRuns.ConcurrencyMeaning` | src/lifecycle.rs:1102-1117 | the maximum of concurrent instances is reached and never exceeded, and seen instances bound it |
| `Streams.StreamOrderLawful` | src/lifecycle.rs:902-908 | the output comparator is lawful and ties only on equal streams |
| `Streams.BuildLifecycles` | src/lifecycle.rs:847-910 | exactly one record for each stream of the cohort or the transitions, strictly ordered, each the lifecycle of its own stream |
| `Streams.LifecyclesListed` | src/lifecycle.rs:847-910 | a stream has a record if and only if it is in the cohort or some transition is its own; records are listed by collector, peer and prefix |
| `Streams.RecordUnique` | src/lifecycle.rs:923-1320 | a record is determined by its stream's own baseline and transitions |
| `Streams.ResultDependsPerStream` | src/lifecycle.rs:847-910 | any interleaving of streams and any walk order of the hash maps gives the same list |
| `Streams.RecordLists` | src/lifecycle.rs:1043-1066 | a record lists its own stream's transitions, sorted, split by phase |
| `Streams.EveryTransitionIsListedOnce` | src/lifecycle.rs:847-910 | the main and cooldown lists of all records together are exactly the descriptions of the input, with multiplicity |
| `Streams.AdmittedRecordFlags` | src/cohort.rs:65-115 | from the RIB to the flags: for an admitted stream with distinct route keys, not restored if and only if nothing active matches at the end, restored if and only if something does and it was withdrawn |
| `Runs.SplitUnique` | src/lifecycle.rs:633-645 | a sequence splits into maximal runs in one way only |
| `Waves.DeriveWaves` | src/lifecycle.rs:611-651 | the loop splits the sorted event transitions into maximal runs and builds one numbered wave for each |
| `Waves.Bump` | src/lifecycle.rs:686-693 | find-and-increment raises one label's count and no other |
| `Waves.CountLabels` | src/lifecycle.rs:695-766 | the counts are the numbers of supporting transitions, for labels and for transit effects |
| `Waves.DecideLabel` | src/lifecycle.rs:768-781 | the label is the one with strictly more support than every other; mixed exactly when there is none |
| `Waves.ObservedStartsSuffice` | src/lifecycle.rs:783-805 | windows that start at an observed time reach the maximum over windows at any start |
| `Waves.PeakWindow` | src/lifecycle.rs:783-805 | the earliest observed start of a fullest 60-second window, and the last time inside it |
| `Waves.BuildWave` | src/lifecycle.rs:653-840 | bounds, label, peak, counts and representative paths of one wave; its prefixes and peers sorted without repetition, every facet counted, its observations in order, each once |
| `WaveLabels.LabelExactly` | src/lifecycle.rs:720-781 | each label wins if and only if more transitions speak for it than for any other: reduced or increased prepending, loss or gain of the transit, withdrawal, restoration, return to the baseline; mixed if none does |
| `WaveLabels.LabelAgreesWithCounts` | src/lifecycle.rs:695-766 | the numbers of the prepend and transit labels are the facets and transit counts of the wave |
| `WaveLabels.FacetsMeaning` | src/lifecycle.rs:695-728 | every facet is the number of transitions with that effect |
| `WaveLabels.BoundsMeaning` | src/lifecycle.rs:653-836 | start, end, whole seconds between, and the paths of the first transition |
| `WaveLabels.CountsMeaning` | src/lifecycle.rs:660-674 | how many different stream texts and route keys a wave has |
| `WaveLabels.ListsMeaning` | src/lifecycle.rs:660-690 | prefixes, peers and observations are those of the transitions, in order, each once |
| `WaveLabels.PeakMeaning` | src/lifecycle.rs:783-805 | the peak begins at the earliest transition that most follow within 60 seconds, and ends with the last of these |
| `WaveProofs.WavesPartitionEvents` | src/lifecycle.rs:617-650 | every event transition is in exactly one wave, neighbours inside are near, consecutive waves are too far apart |
| `WaveLabels.WavesMeaning` | src/lifecycle.rs:617-651 | the waves hold exactly the transitions of the event phase and are numbered from 1 |
| `WaveProofs.PeakInsideWave` | src/lifecycle.rs:783-805 | start, peak start, peak end and end are in order and the peak is at most 60 seconds long |
| `WaveProofs.NearMeaning` | src/lifecycle.rs:636-638 | two times are near if and only if their distance is below the next whole second after the gap |
| `WaveProofs.AlmostOneSecondMore` | src/lifecycle.rs:636-638 | the distance of one nanosecond less than that is near although it exceeds the limit |
| `WaveProofs.GapAsDocumentedExactly` | src/lifecycle.rs:605-607 | for all ordered times near means at most the limit, if and only if the limit is negative or reaches the last nanosecond before the next whole second |
| `WaveProofs.BoundariesIgnoreOrder` | src/lifecycle.rs:617-650 | for every gap, any order of the input gives waves with the same observation times |
| `WaveProofs.WavesIgnoreOrder` | src/lifecycle.rs:611-840 | for a gap that is not negative, everything but the representative paths is independent of the input order |
| `WaveProofs.RepresentativeFollowsInput` | src/lifecycle.rs:807-818 | on a tie of time and path identifier the representative is whichever came first |
| `WaveRepresentatives.WaveRepresentatives` | src/lifecycle.rs:807-818 | the representative paths are those of the transitions that open the waves |
| `WaveRepresentatives.RepresentativesIgnoreOrderExactly` | src/lifecycle.rs:617-818 | for any gap: the representatives are the same for every input order if and only if transitions that tie with the first of a wave share its paths |
| `WaveRepresentatives.WavesFixed` | src/lifecycle.rs:611-840 | under that condition, and for a gap that is not negative, any order of the input gives the same waves |
| `WaveProofs.TextsTellApartExactly` | src/lifecycle.rs:666-670 | for any set of collectors and peers: the texts of all their streams differ if and only if no text `collector:peer:` begins another |
| `WaveProofs.StreamCountExact` | src/lifecycle.rs:666-670 | then the stream count of a wave is the number of its streams |
| `WaveProofs.ColonFreeHeads` | src/lifecycle.rs:666-670 | collectors and peers without colons, as for IPv4, meet the condition |
| `WaveProofs.StreamTextsCollide` | src/lifecycle.rs:666-670 | two IPv6 streams with one text |
| `CacheKeys.RibCacheKey` | src/derived_cache.rs:95-122 | the bytes fed to the hasher are the RIB pre-image with schema 2 and parser 0.19.0 |
| `CacheKeys.UpdateCacheKey` | src/derived_cache.rs:313-334 | the bytes fed to the hasher are the UPDATE pre-image with schemas 2 and 2 and parser 0.19.0 |
| `CacheKeys.RibFields` | src/derived_cache.rs:95-122 | the fields of the RIB pre-image, versions included, in their order with a bar between any two |
| `CacheKeys.UpdateFields` | src/derived_cache.rs:313-334 | the fields of the UPDATE pre-image in their order |
| `CacheKeys.NumbersByteByByte` | src/derived_cache.rs:111-113 | 11537 as its four bytes, the least significant first |
| `CacheKeys.PredicatesInFull` | src/derived_cache.rs:66-88 | the identities of three predicates |
| `CacheKeys.StreamInFull` | src/derived_cache.rs:219-230 | collector, peer and prefix of a stream, each closed by a bar |
| `CacheKeys.IdentityInjective` | src/derived_cache.rs:66-88 | different predicates have different identities |
| `CacheKeys.AsnBytesInjective` | src/derived_cache.rs:111-113 | the little-endian bytes determine the list of AS numbers |
| `CacheKeys.RibPreimageInjective` | src/derived_cache.rs:95-122 | with bar-free names and parser version, pre-images are equal if and only if all eight inputs are, versions included |
| `CacheKeys.UpdatePreimageInjective` | src/derived_cache.rs:313-334 | the same for the seven inputs of UPDATE keys, whatever the target hash contains |
| `CacheKeys.BarsCollide` | src/derived_cache.rs:95-122 | a bar in a name gives another input with the same pre-image |
| `CacheKeys.UpdateBarsCollide` | src/derived_cache.rs:313-334 | likewise for UPDATE keys |
| `CacheKeys.RibKeysDifferExactly` | src/derived_cache.rs:95-122 | for all inputs with names over an alphabet: pre-images are equal exactly for equal inputs, if and only if the alphabet has no bar |
| `CacheKeys.UpdateKeysDifferExactly` | src/derived_cache.rs:313-334 | the same for UPDATE keys |
| `CacheKeys.StreamSetHash` | src/derived_cache.rs:213-259 | whatever order the set is walked in, its sorted listing is hashed |
| `CacheKeys.StreamSetEncodingExact` | src/derived_cache.rs:213-259 | for bar-free streams the encodings are equal if and only if the sets are |
| `CacheKeys.StreamBarsCollide` | src/derived_cache.rs:213-259 | a bar in any part of a stream: the set of that stream and the set of some other one have the same encoding |
| `CacheKeys.SetHashesDifferExactly` | src/derived_cache.rs:213-259 | for all sets of streams over an alphabet: encodings are equal exactly for equal sets, if and only if the alphabet has no bar |
| `ObservationOrder.ComparatorLawful` | src/derived_cache.rs:271-284 | the comparator is lawful and ties exactly on equal identities |
| `ObservationOrder.UnkeyedFirst` | src/derived_cache.rs:286-292 | other things equal, an observation without path identifier comes first |
| `ObservationOrder.SortDeterministic` | src/derived_cache.rs:295-297 | sorts the slice in place, stably |
| `ObservationOrder.AssignDeterministicIds` | src/derived_cache.rs:304-308 | numbers the slice in place and changes nothing else |
| `ObservationOrder.OrderIsDocumented` | src/derived_cache.rs:262-292 | the comparator puts one observation not after another if and only if that order does |
| `ObservationOrder.FinalizedMeaning` | src/derived_cache.rs:262-308 | identifiers are 0 to n-1, nothing else changed, and any two observations are in order: collector, time, archive, element, peer, prefix, path identifier, strings by the first character that differs |
| `ObservationOrder.OrderIndependent` | src/derived_cache.rs:262-308 | the same observations in any order end with the same sequence and identifiers |
| `ObservationOrder.OrderIndependentExactly` | src/derived_cache.rs:262-308 | this holds for every order if and only if observations that tie differ in nothing but the identifier |
| `Discover.SelectRibMeaning` | src/discover.rs:151-159 | the chosen RIB is a newest file of type `rib` that starts at or before the warmup; none exactly if there is none |
| `Discover.RibStartIgnoresOrder` | src/discover.rs:151-159 | its start does not depend on the input order |
| `Discover.RibTieFollowsInput` | src/discover.rs:151-159 | of two equally new RIBs the later listed one is chosen |
| `Discover.RibIgnoresOrderExactly` | src/discover.rs:151-159 | the chosen RIB is the same for every input order if and only if all newest candidates are the same item |
| `Discover.CanonicalStartMeaning` | src/discover.rs:232-244 | the file name overrides the broker exactly from 31 minutes of disagreement on |
| `Discover.AlmostOneMinuteMore` | src/discover.rs:225-244 | a file name that is off by 30 minutes and 59 seconds is not believed |
| `Discover.OverrideAsDocumentedExactly` | src/discover.rs:225-244 | a disagreement of more than 30 minutes overrides, and no other, if and only if it is not between 30 and 31 minutes |
| `Discover.DedupeUrls` | src/discover.rs:295-308 | keeps the first item of each URL, in order, and lists the URLs it removed |
| `Discover.NothingGetsLost` | src/discover.rs:295-308 | the URLs kept and removed are together those of all items, with multiplicity |
| `Discover.KeepFirstMeaning` | src/discover.rs:295-308 | kept are exactly the first occurrences, each URL once |
| `Discover.SelectUpdates` | src/discover.rs:179-223 | filter, stable sort, dedupe |
| `Discover.SelectionMeaning` | src/discover.rs:179-223 | strictly ordered by canonical start and URL, no URL twice, and complete: the earliest place of every URL in the window |
| `Discover.SelectedExactly` | src/discover.rs:179-244 | selected are UPDATE files that start from half an hour before the RIB to the end of the cooldown, by the name if it is 31 minutes off, one of every URL, the earliest, ordered by start and URL |
| `Discover.SelectionIgnoresOrder` | src/discover.rs:179-223 | the sequence of starts and URLs is the same for every order and repetition of the input |
| `Discover.SelectionFixedExactly` | src/discover.rs:200-217 | the items themselves are the same for every order if and only if earliest items of one URL do not differ |
| `Discover.ValidateUpdateGaps` | src/discover.rs:273-291 | the loop lists the gaps in order |
| `Discover.GapPlacesMeaning` | src/discover.rs:273-291 | gaps are at exactly the places where the next file starts later than the tolerance after the end |
| `Discover.GapsMeaning` | src/discover.rs:273-291 | there is one report for each such place, in order, with the URLs, end, start and whole seconds between |
| `Discover.ReportedExactly` | src/discover.rs:273-291 | a gap is reported if and only if two neighbours are further apart than the tolerance |
| `Discover.NoGapsMeansCovered` | src/discover.rs:273-291 | without a report every instant from the first start to the last end is inside some file's coverage extended by the tolerance |
| `Discover.ReportsAreHolesExactly` | src/discover.rs:273-291 | for any files and tolerance: nothing in any reported gap is covered, if and only if no file that covers anything starts before the gap's end and ends after the gap's start |
| `Discover.ReportsAreHolesForEveryTolerance` | src/discover.rs:273-291 | so it is for every tolerance if and only if no file bridges the time between two neighbours |
| `Discover.SpuriousGap` | src/discover.rs:273-291 | three files with continuous coverage and a reported gap |
| `Verdicts.RedundantVerdicts` | src/assess.rs:196-243 | failed redundancy, redundant impact and no impact, each if and only if: expectation, complete observation, and some or no withdrawals and path replacements |
| `Verdicts.SingleAttachmentVerdicts` | src/assess.rs:196-250 | expected loss, less impact than expected, and no verdict for an unknown expectation, likewise |
| `Verdicts.OutageVerdicts` | src/assess.rs:252-351 | unavailability and partial impact, for participants with and without lifecycles and for peers, likewise |
| `Verdicts.ReroutingVerdict` | src/assess.rs:252-351 | alternate routing likewise |
| `Verdicts.ContinuedVerdicts` | src/assess.rs:196-351 | policy changes and continued paths likewise, without transitions too |
| `Verdicts.InsufficientVerdict` | src/assess.rs:196-311 | too little is seen if and only if continuity is unknown or a session was reset, or ambiguous streams stand beside none that is down |
| `Verdicts.LifecycleVerdicts` | src/assess.rs:252-311 | the six verdicts over lifecycles, each if and only if, by flags and categories of the single streams |
| `Verdicts.SimulatedIsSound` | src/lifecycle.rs:1221-1232 | records of the simulation meet the condition of these: withdrawn streams are those of category `Withdrawn` |
| `Assess.ParticipantVerdictMeaning` | src/assess.rs:252-311 | unavailability exactly when every unambiguous stream is withdrawn or departed and one is withdrawn; likewise alternate routing and partial impact |
| `Assess.NoImpactMeansNoneAffected` | src/assess.rs:252-311 | a verdict of no impact is given only without ambiguous and without affected streams |
| `Assess.DoubleCountingMisleads` | src/assess.rs:270-285 | without the lifecycle invariant one stream counted twice hides an unaffected one |
| `Assess.VerdictIgnoresOrder` | src/assess.rs:196-351 | neither the order of transitions nor that of streams changes any verdict |
| `Assess.AmbiguousStreamsOnlyWeaken` | src/assess.rs:252-311 | adding ambiguous streams leaves the verdict or makes it insufficient |
| `Assess.RecordsConsistent` | src/lifecycle.rs:1221-1232 | in simulated records withdrawn streams are exactly those of category `Withdrawn` |
| `Assess.UnavailabilityIsObserved` | src/assess.rs:196-311 | unavailability over simulated lifecycles: continuity is known, every unambiguous stream lost all routes or had some instance leave the transit (which another instance may have kept on it), and one lost all |
| `Assess.UnavailabilityOfSingleInstances` | src/assess.rs:196-311 | an unambiguous stream with one path identifier really was absent, or visible off the transit, at some point |

## Left out

- Network, filesystem, archive parsing and atomic writes: `download` and `parse` are functions of the item, the same every time.
- Thread panics, poisoned locks, weak memory and wall-clock time; the cancel flag is one atomic flag that is only ever raised.
- Spawning: all workers exist from the start, while the code spawns them one after another; a worker that has not begun yet is one that has not been scheduled.
- SHA-256, its truncation and the hexadecimal form: the hash is a parameter, statements are about the bytes fed to it; text is taken as its own encoding.
- Target sets are sets of streams; the code keeps lists per collector, deduplicated at construction.
- The parser of timestamps in file names: `Discover` takes it as a function parameter, so its results hold for every naming convention.
- `f64` values: whole seconds are integers and the gap limit is a real number; NaN and infinite limits are not modelled.
- `{:?}` escapes of control and non-printing Unicode characters other than the common ones: communities are taken to contain none.
- IP addresses and prefixes are strings, compared as the code compares their text; parsing and canonical forms are not modelled.
- Route reconstruction: transitions, including their effects and the origin list, are inputs.
- GRACEFUL_SHUTDOWN bookkeeping (section 5 of RFC 8326), communities before and after, and audit statistics.
- Evidence references carry more in the code; here lists of evidence hold observation identifiers, by which the code tells references apart.
- Evidence texts of an assessment and the text of gap messages.
- Cache loading and validity checks, reuse of source extractions, and cached `archive_order` values.
- Command line, reports, catalog, job queue, web, comparison and performance probes.
- LifecycleBuilder.FirstBaselinePath: the ordered map is walked in any order and the least key kept, instead of taking the first entry.
- Streams.BuildLifecycles: assumes that each baseline belongs to its own stream, which `Cohort.BaselineKeysOwn` proves of every frozen cohort.
- ObservationOrder.SortDeterministic: the library's in-place sort is its specification, written back element by element.
