# RLMesh adapter engine and release tooling, verified in Dafny

This project models the stateful core of RLMesh in Dafny 4.11 and proves what that
core promises. It covers five parts of the repository.

* **The adapter engine** (`crates/rlmesh-adapters/src/stateful.rs`, `plans.rs`): per-episode
  frame windows, the action log, the chunk protocol, and the calls that advance, assemble,
  observe and record. The engine is a class over the episode map; each method is proved
  against a function on one episode's state, and the theorems are about whole runs of those
  functions.
* **Joining tags to spaces** (`join.rs`, `resolver.rs`, `path.rs`, `space_view.rs`): paths of
  tree leaves, split and action layouts, ranges, and binding a role to a leaf.
* **Pure helpers with real content**: splitting a chunk, the drift between two values, the
  one-row edit distance.
* **The edition lineage** (`scripts/bump_version.py`, `crates/rlmesh-proto/build.rs`,
  `build_manifest.rs`): version bumps, what a build offers, and the manifest scanner.
* **Release and test tooling** (`scripts/release.py`, `scripts/dev/affected.py`): the upload
  protocol, the crate selection and the C# dependency snapshot.

Host code that the engine calls (image pipelines, state parts, encoding transforms, custom
inputs, the digest of a file, rebuilt bytes) enters as functions the theorems quantify over.
Each `*.dfy` file holds one module of the same name; `dafny verify dfyconfig.toml` checks all
of them.

## Main results

1. *Horizon invariance* (`HorizonInvariance`): under any encoding transform, whatever steps were
   predicted at or only observed and whatever chunks came back, the stack returned at step `s`
   holds the frames given at the steps `s + offset`, or the pad before the first. Those are the
   steps' own frames in every run if and only if the transform leaves the stacked slot alone at
   every prediction. The too-few-frames error is unreachable. `PayloadInvariance` extends this to
   the whole payload, and `PayloadContents` says of every input what the model sees: its own
   pipeline's value for the step's observation, and for a state input for the action before it.
2. *The chunk protocol* (`ChunkProtocol`): chunks concatenate, no row is overwritten, and every
   later prediction reads the action recorded for the step before it. That is the action that ran
   there, if and only if no chunk finished earlier was cut short (`Execution`). `RouteFrames` adds
   the lanes of a batch, and says exactly when all that a batch records is handed out to run.
3. *Pruning is invisible* (`ActionLog`), *episodes do not interfere* (`Interleaving`), and the steps
   accepted in one life of an episode are consecutive (`Lifetimes`). *Memory is bounded*: the exact
   number of action rows and the exact bound on it (`ActionRows`), and the bytes of all live
   episodes at every moment of every interleaving (`Lifetimes`, `MemoryBound`).
4. *Path soundness* (`PathSoundness`); which tag trees are accepted, what their features say of the
   spaces, and what a refusal names (`JoinedFeatures`); the exact alphabets over which a path's
   text identifies it (`PathNames`), *tiling* and *idempotence* of layouts (`SplitLayouts`,
   `ActionLayouts`), and *binding never guesses* (`Binding`).
5. The row loop computes the *Levenshtein distance*, which is the cost of the cheapest edit
   script and a metric (`EditDistance`); the drift of values is a *pseudometric* (`ValueDiff`);
   splitting a chunk *commutes with field access* (`SplitChunk`).
6. *Edition lineage* over every sequence of bumps and base edits (`Editions`), and *print then
   scan is the identity* for every layout of the array (`ManifestScan`).
7. *Upload safety* over every sequence of retries and interruptions (`ReleaseUpload`), and the
   worklists and the group walk compute *least closed sets* on any graph (`Affected`,
   `DependencySnapshot`, `DependencyGroups`).

## Where the code and its promises part

* An encoding transform may repack a stacked input (its documentation says so), but
  `observe_obs` does not run it. Two runs over the same observations then return different stacks
  (`ObserveParity.RepackingShows`). `HorizonInvariance.HorizonInvariantIff` gives the exact
  condition over all runs, `ObserveParity.ObservingIsAssemblingIff` for one step.
* The engine's documentation says the action log holds at most one chunk. With chunks of one
  action and no lead it comes to hold two rows (`ActionRows.LogOutgrowsAChunk`).
  `ActionRows.AtMostOneChunkIff` says exactly when one chunk is enough, and
  `ActionRows.ActionRowsBounded` with `ActionRows.BoundIsReached` give the exact maximum, which is
  `lead + h + 1` for chunks of two actions or more.
* The engine promises that at a re-plan a route reads the action the runtime replayed last. A
  batch records every lane's whole chunk but hands out only the shortest lane's length, and a
  batch that fails at a later lane has recorded its earlier ones and hands out nothing. A lane so
  cut short reads back an action that never ran (`RouteFrames.RaggedLaneReadsWhatNeverRan`,
  `RouteFrames.FailedBatchStillRecords`). `Execution.ReadsWhatRanIff` gives the exact condition on
  a run, and `RouteFrames.AllIsExecutedIff` on a batch: it succeeds with lanes of equal length, or
  fails before it records anything.
* A prerelease bump whose edition name is already a sealed one rewrites the sealed table, and a
  run of bumps and base edits can get there (`Editions.CollidingRunUnseals`).
  `Editions.SealedTablesSurviveIff` gives the exact condition on a bump,
  `Editions.RunKeepsSealedIff` on a run, and dash-free base names rule the case out (`Editions.PlainNamesNeverCollide`). The policy
  checker refuses such a manifest, since it names a sealed edition by its bare base
  (`scripts/check_rlmesh_policy.py:778-782`); the bump script itself does not.
* A field of width zero over element-wise bounds joins without a range
  (`SplitLayouts.ZeroWidthFieldHasNoRange`; exactly when: `Layouts.UniformLeafGivesItsRange`), and
  a leaf wider than `u32` is accepted and tiled only up to `u32::MAX`
  (`SplitLayouts.WideLeafIsCutOff`; exactly when: `SplitLayouts.TilesTheWholeLeafIff`).
* A packaged build reads its base edition up to the first dash, so it offers the declared list
  exactly when the base has no dash (`Editions.PackagedBuildOffersTheListIff`). The policy checker
  refuses a base with a dash (`scripts/check_rlmesh_policy.py:687-692`); the build script does not.
* Different paths can render alike: a dotted key and two keys, an empty first key and none, a
  bracketed key and an index, a key named like the root (`PathNames.DottedKeysCollide`,
  `PathNames.EmptyKeysCollide`). `PathNames.TextIdentifiesIff` says exactly over which alphabets
  of non-empty keys the text identifies the path. Windows are keyed by the structured path and
  never collide (`Trees.LeafPathsApart`); the `stacks` summary is keyed by the text and loses an
  entry exactly when two stacked placements render alike (`PathNames.StacksKeepEveryEntryIff`).

## Model

| member | source | states |
|---|---|---|
| Windows.Window.Push | crates/rlmesh-adapters/src/stateful.rs:273-299 | one push leaves the frames `Pushed` says, or the error and the old frames; `FirstPushFills`, `FirstPush` and `NextPush` say what those are |
| Windows.Window.Gather | crates/rlmesh-adapters/src/stateful.rs:305-331 | the stack of the frames at the offsets, or the first offset out of reach |
| Windows.PicksOrNames | crates/rlmesh-adapters/src/stateful.rs:308-328 | a pick takes the frame each offset reaches back to, or names the first offset out of reach |
| Windows.FirstPush | crates/rlmesh-adapters/src/stateful.rs:273-299 | the first push leaves exactly the newest `span` frames of a one-frame history |
| Windows.FirstPushFills | crates/rlmesh-adapters/src/stateful.rs:285-293 | the first frame fills its window with itself, or with the same tensor in black (the low end of `normalize`, or 0) before it; it is refused iff it has elements of an integer dtype that cannot store black |
| Windows.PadIsAsDeclared | crates/rlmesh-adapters/src/stateful.rs:350-357 | a pad is the first frame or that black, and is refused exactly then |
| Windows.NextPush | crates/rlmesh-adapters/src/stateful.rs:273-299 | a later push slides the window along its history |
| Windows.GatherReadsHistory | crates/rlmesh-adapters/src/stateful.rs:305-331 | gathering from the window of a history is stacking that history's frames at the offsets |
| Plans.AcceptedWindowObeysLaw | crates/rlmesh-adapters/src/resolver/image.rs:370-419 | adjacent comparisons suffice: accepted offsets all lie between the first and 0, one per stack slot |
| Plans.WindowAcceptedIff | crates/rlmesh-adapters/src/resolver/image.rs:370-419 | exactly the strictly increasing offsets that end at 0, as many as the stack is deep and within 128 frames, are accepted unchanged, a pad only for a window; each refusal has the fault it names |
| Plans.StackedListsTheStackingPlans | crates/rlmesh-adapters/src/plans.rs:129-178 | the derived list holds one entry for each image plan of more than one frame, in plan order, with that plan's fields and a span that just reaches its oldest offset |
| Plans.ReadsPreviousIff | crates/rlmesh-adapters/src/plans.rs:158-169 | an adapter reads the previous action iff one of its state inputs does |
| Plans.PlansOfOneTree | crates/rlmesh-adapters/src/plans.rs:129-178 | plans placed at the leaves of one tree have distinct slots |
| Plans.ValidIsSound | crates/rlmesh-adapters/src/plans.rs:129-178 | an adapter built from such plans stacks each entry into a slot of its own |
| Plans.TreeGivesValidAdapter | crates/rlmesh-adapters/src/plans.rs:129-178 | one accepted plan per leaf of an input tree makes a valid adapter |
| FrameBuffers.FrameBuffers.constructor | crates/rlmesh-adapters/src/stateful.rs:110-112 | new buffers hold no episode |
| FrameBuffers.FrameBuffers.Evict | crates/rlmesh-adapters/src/stateful.rs:115-117 | exactly the evicted episode is gone |
| FrameBuffers.FrameBuffers.Clear | crates/rlmesh-adapters/src/stateful.rs:120-122 | no episode is left |
| FrameBuffers.FrameBuffers.CountStep | crates/rlmesh-adapters/src/stateful.rs:190-192 | the next step of an episode, 0 when it is not held |
| FrameBuffers.FrameBuffers.ChunkStep | crates/rlmesh-adapters/src/stateful.rs:175-185 | one past the greatest recorded step, else the last observed step, else 0 |
| FrameBuffers.FrameBuffers.HeldBytes | crates/rlmesh-adapters/src/stateful.rs:139-157 | the bytes of all frames and action rows of all episodes |
| FrameBuffers.FrameBuffers.AdvanceStep | crates/rlmesh-adapters/src/stateful.rs:231-245 | advancing acts on its own episode as `Advance` does and on no other; `StepRefusedIff` says when that refuses |
| FrameBuffers.FrameBuffers.ReadAction | crates/rlmesh-adapters/src/stateful.rs:200-220 | what an assembled step reads, with the rows behind it dropped |
| FrameBuffers.PushFrame | crates/rlmesh-adapters/src/stateful.rs:487-497 | one placement's window takes the frame; nothing else changes |
| FrameBuffers.StackInPlace | crates/rlmesh-adapters/src/stateful.rs:470-500 | the loop over stacked placements is the fold `StackFrom`, on windows and payload |
| FrameBuffers.AssembleObs | crates/rlmesh-adapters/src/stateful.rs:440-501 | assembling acts on its own episode as `Assemble` does, errors included, and on no other; `EveryInputIsItsPipelines` and `StackShowsTheSteps` say what that returns |
| FrameBuffers.ObserveObs | crates/rlmesh-adapters/src/stateful.rs:510-532 | observing acts on its own episode as `Observe` does, errors included, and on no other |
| FrameBuffers.RecordAction | crates/rlmesh-adapters/src/stateful.rs:567-593 | the row is recorded under its step, or refused for its width, or ignored where nothing reads it |
| FrameBuffers.RecordChunk | crates/rlmesh/src/model/engine.rs:765-780 | the record half of a lane: converted rows are recorded from `chunk_start` upward, stopping at the first refusal |
| RouteFrames.ApplyLane | crates/rlmesh/src/model/engine.rs:765-783 | a lane converts and records its actions one by one under consecutive steps, stopping at the first that fails either way |
| RouteFrames.AppliesAsAChunk | crates/rlmesh-adapters/src/stateful.rs:544-560 | where all actions convert, a lane records exactly their rows as a chunk and returns their values |
| RouteFrames.FailedLaneKeepsItsPrefix | crates/rlmesh-adapters/src/stateful.rs:544-560 | where one does not convert, exactly the actions before it stay recorded |
| RouteFrames.FinishRouteFrames | crates/rlmesh/src/model/engine.rs:744-804 | a batch records every lane whole, refuses an empty chunk, and hands each lane its values up to the shortest lane's length |
| RouteFrames.RecordsWhatItApplied | crates/rlmesh-adapters/src/stateful.rs:544-560 | whether it succeeds or fails, a lane records as one chunk exactly the rows before its first failing action |
| RouteFrames.BatchRecords | crates/rlmesh/src/model/engine.rs:755-788 | a batch, failed or not, records for each lane that chunk, and nothing for the lanes after a failed one |
| RouteFrames.BatchHandsOut | crates/rlmesh/src/model/engine.rs:786-803 | a batch that succeeds hands each lane its first so many values, the shortest lane's length |
| RouteFrames.BatchErrorHasCause | crates/rlmesh/src/model/engine.rs:766-788 | a failed batch names what stopped its first incomplete lane: no actions, one that does not convert, or a row of the wrong width |
| RouteFrames.BatchIsAChunk | crates/rlmesh/src/model/engine.rs:755-788 | in a lane's own run, a batch is one chunk of what it recorded |
| RouteFrames.AllIsExecutedIff | crates/rlmesh/src/model/engine.rs:755-803 | all that a batch records is handed out to run, iff it succeeds and its lanes are equally long, or fails at the first action of its first lane |
| RouteFrames.RaggedLaneRunsAhead | crates/rlmesh/src/model/engine.rs:765-798 | after a batch a lane's next chunk starts past all it recorded, which is past what runs exactly when that is less |
| RouteFrames.RaggedLaneReadsWhatNeverRan | crates/rlmesh/src/model/engine.rs:721-723 | a lane of two actions beside a lane of one runs only its first, and after its next batch has run reads back the second |
| RouteFrames.FailedBatchStillRecords | crates/rlmesh/src/model/engine.rs:766-783 | a batch with a second lane that does not convert hands out nothing, and its first lane's action stays recorded |
| Execution.RanAtIff | crates/rlmesh/src/model/engine.rs:721-723 | the k-th action to run is the k-th recorded, iff every chunk finished before it was handed out whole |
| Execution.ReadsWhatRanIff | crates/rlmesh/src/model/engine.rs:721-723 | a later prediction reads the row recorded for the step before; that is the action that ran there, iff no chunk finished earlier was cut short |
| WindowTracking.ObserveTracks | crates/rlmesh-adapters/src/stateful.rs:510-532 | an observed step extends every unbounded history by the step's own frame |
| WindowTracking.AssembleTracks | crates/rlmesh-adapters/src/stateful.rs:440-501 | under any transform, an assembled step extends each history by the slot its payload stacks and returns the histories' stacks; it fails only for its pipelines, pads or frames, or a slot the transform removed |
| HorizonInvariance.CleanRunOnTrack | crates/rlmesh-adapters/src/stateful.rs:231-331 | after every clean run, under any transform, the windows stand for exactly the frames its steps gave |
| HorizonInvariance.GivenAt | crates/rlmesh-adapters/src/stateful.rs:440-532 | each step gave each stacked input one frame: the repacked slot if it predicted, the plan's frame if it only observed |
| HorizonInvariance.StackShowsWhatWasGiven | crates/rlmesh-adapters/src/stateful.rs:265-331 | under any transform, slot by slot, the stack at step s is the frame given at step s + offset, or the pad of the first one given |
| HorizonInvariance.StackShowsTheSteps | crates/rlmesh-adapters/src/stateful.rs:265-331 | in every run whose stacked slot the transform left alone, those are the frames of the steps themselves |
| HorizonInvariance.HorizonInvariantIff | crates/rlmesh-adapters/src/stateful.rs:440-532 | every prediction of every run shows the steps' own frames, iff at every prediction the transform leaves the stacked slot with the plan's frame |
| HorizonInvariance.KeepingTransformKeeps | crates/rlmesh-adapters/src/stateful.rs:46-52 | a transform that never touches stacked slots meets that condition in every run |
| HorizonInvariance.SameStackIff | crates/rlmesh-adapters/src/stateful.rs:305-331 | two predictions return the same stack iff they look at the same frames as given |
| HorizonInvariance.MarksDoNotMatter | crates/rlmesh-adapters/src/stateful.rs:502-532 | two such runs over the same observations return the same stacks, wherever each chose to predict |
| PayloadInvariance.StackingTouchesStackedSlots | crates/rlmesh-adapters/src/stateful.rs:470-500 | stacking changes the stacked slots of a payload and no others |
| PayloadInvariance.SameReadsSamePayload | crates/rlmesh-adapters/src/stateful.rs:440-501 | two such runs under one transform that read the same action return equal payloads, every slot included |
| PayloadInvariance.ObservationsAndActionDecide | crates/rlmesh-adapters/src/stateful.rs:440-501 | for runs that keep up, the observations and the action recorded for the step before decide the whole payload |
| PayloadContents.TransformHolds | crates/rlmesh-adapters/src/apply/obs.rs:28-61 | transforming succeeds iff every pipeline does, and fills each input's slot with its pipeline's value, a text or custom one perhaps not at all, and no other slot |
| PayloadContents.PredictionHolds | crates/rlmesh-adapters/src/stateful.rs:440-501 | in every run, an input neither stacked nor touched by the transform shows its pipeline's value for the last observation and the action read |
| PayloadContents.EveryInputIsItsPipelines | crates/rlmesh-adapters/src/stateful.rs:440-501 | in a run that keeps up, a state input's value is its pipeline's for the observation and the action recorded for the step before, or the fill at the first prediction; other inputs' for the observation |
| PayloadContents.PredictionReports | crates/rlmesh-adapters/src/stateful.rs:449-463 | a prediction that lacks its row, or whose pipeline fails, fails with that error |
| HorizonInvariance.OnlyTheObservationFails | crates/rlmesh-adapters/src/stateful.rs:305-331 | under any transform too few frames and a step gap are unreachable in runs of consecutive steps, and a slot is missing only if the transform removed it |
| HorizonInvariance.ContiguousIsStrided | crates/rlmesh-adapters/src/plans.rs:148-152 | a contiguous depth-d stack is the strided one over 1-d, ..., 0 |
| ObserveParity.ObservingIsAssemblingIff | crates/rlmesh-adapters/src/stateful.rs:440-532 | observing leaves the windows assembling would, iff the encoding transform kept every stacked frame |
| ObserveParity.RepackingShows | crates/rlmesh-adapters/src/stateful.rs:46-52 | with a transform that repacks a stacked input, two runs over the same observations return different stacks |
| ChunkProtocol.RecordAdds | crates/rlmesh/src/model/engine.rs:765-780 | recording a chunk adds its rows under consecutive steps and nothing else |
| ChunkProtocol.RunInProtocol | crates/rlmesh-adapters/src/stateful.rs:175-245 | the protocol's invariant over every run, any chunk lengths and leads |
| ChunkProtocol.ChunksConcatenate | crates/rlmesh-adapters/src/stateful.rs:175-185 | `chunk_start` is the observed step plus the queued rows, past every recorded row; the log is the concatenated chunks |
| ChunkProtocol.ChunkStartIsFirst | crates/rlmesh-adapters/src/stateful.rs:175-185 | in any state, `chunk_start` is the first step past every recorded row and not before the observed one |
| ChunkProtocol.NoRowIsOverwritten | crates/rlmesh-adapters/src/stateful.rs:567-593 | a row the log still holds later in a run is the row it held before |
| ChunkProtocol.EveryStepReadsTheActionBefore | crates/rlmesh-adapters/src/stateful.rs:200-220 | the first assembled step reads the fill, every later one the action recorded for s - 1 |
| ActionLog.ReadGives | crates/rlmesh-adapters/src/stateful.rs:200-220 | a read in any state gives the fill iff it is the first or at its step, else the row of the step before or the error that names it, and drops exactly the rows behind |
| ActionLog.LogIsFaithful | crates/rlmesh-adapters/src/stateful.rs:200-220 | the pruned log keeps every row a reader that never goes back may still want |
| ActionLog.PruningIsInvisible | crates/rlmesh-adapters/src/stateful.rs:200-220 | such a reader gets what an unbounded log gives: row, fill or missing-row error |
| ActionLog.NeverAnotherStepsRow | crates/rlmesh-adapters/src/stateful.rs:567-593 | a returned row was recorded for exactly the step before, and is the latest such |
| ActionLog.GoingBackShowsPruning | crates/rlmesh-adapters/src/stateful.rs:200-220 | reading back shows the pruning, so the order of reads is needed |
| ActionRows.ActionRowsAre | crates/rlmesh-adapters/src/stateful.rs:98-101 | every clean paced run leaves exactly the queue, the rows since the last prediction, and the row a later prediction read |
| ActionRows.AtMostOneChunkIff | crates/rlmesh-adapters/src/stateful.rs:98-101 | the log holds at most one chunk iff those add up to no more |
| ActionRows.ActionRowsBounded | crates/rlmesh-adapters/src/stateful.rs:200-220 | every paced run holds at most `MostRows` action rows, never more than lead + h + 1 |
| ActionRows.BoundIsReached | crates/rlmesh-adapters/src/stateful.rs:200-220 | for every lead and chunk length a clean paced run of a valid adapter holds exactly that many |
| ActionRows.LogOutgrowsAChunk | crates/rlmesh-adapters/src/stateful.rs:98-101 | with chunks of one action and no lead the log comes to hold two rows |
| MemoryBound.WindowHoldsSpan | crates/rlmesh-adapters/src/stateful.rs:273-299 | after every run, any transform and failed events included, a window is empty or holds exactly `span` frames |
| MemoryBound.EpisodeWithinBudget | crates/rlmesh-adapters/src/plans.rs:295-306 | an episode whose frames as pushed have the planned size never outgrows its windows' budget plus lead + h + 1 rows |
| MemoryBound.BudgetIsExact | crates/rlmesh-adapters/src/plans.rs:295-306 | after a clean run with a step in it, frames as planned, the windows hold exactly their budget |
| MemoryBound.LogBytesAre | crates/rlmesh-adapters/src/stateful.rs:139-157 | the action log takes four bytes for each entry of each row |
| Lifetimes.CallsAreTheRun | crates/rlmesh-adapters/src/stateful.rs:108-251 | the calls of a run on shared buffers, failed events included, leave what the run leaves |
| Lifetimes.LifeDecides | crates/rlmesh-adapters/src/stateful.rs:115-122 | after every interleaving an episode holds what its calls since it was last evicted or cleared leave |
| Lifetimes.StepsAreConsecutive | crates/rlmesh-adapters/src/stateful.rs:223-245 | in every interleaving, the steps accepted in one life of an episode are consecutive, and the last of them is remembered |
| Lifetimes.NextStepAcceptedIff | crates/rlmesh-adapters/src/stateful.rs:223-245 | after every interleaving, a step is accepted iff it is the first of its life or follows the last accepted one |
| Lifetimes.CountedStepIsAccepted | crates/rlmesh-adapters/src/stateful.rs:187-192 | the step a caller counts is never refused, and counts a life from 0 |
| MemoryBound.StateWithinBudget | crates/rlmesh-adapters/src/stateful.rs:139-157 | at every moment of every interleaving of such runs, evictions and clears included, `state_bytes` is at most one budget per live episode |
| Interleaving.Perform | crates/rlmesh-adapters/src/stateful.rs:108-251 | each engine call on the shared buffers is its operation on one cell |
| Interleaving.StateIsOwn | crates/rlmesh-adapters/src/stateful.rs:86-121 | after every interleaving an episode holds what its own operations alone leave |
| Interleaving.RepliesAreOwn | crates/rlmesh-adapters/src/stateful.rs:86-121 | every reply is the one its own operations alone would get |
| Interleaving.EvictionForgets | crates/rlmesh-adapters/src/stateful.rs:115-117 | after eviction an episode behaves as never seen, whatever came before |
| Interleaving.StepRefusedIff | crates/rlmesh-adapters/src/stateful.rs:231-245 | a step is refused iff the episode is held with a last step and this is not the next one; the refusal names the next one and changes nothing; an accepted step changes the last step alone |
| SplitChunk.SplitChunk | crates/rlmesh-adapters/src/stateful.rs:379-424 | it succeeds exactly when the value has a horizon, and returns its step values |
| SplitChunk.MapSplitsIffFieldsAgree | crates/rlmesh-adapters/src/stateful.rs:379-424 | a map splits iff all its fields split and agree on their horizon |
| SplitChunk.StepsMakeTheWhole | crates/rlmesh-adapters/src/stateful.rs:379-388 | a tensor's steps stack back to it, a list's are its items, and any other leaf is one step itself |
| SplitChunk.SplitCommutesWithField | crates/rlmesh-adapters/src/stateful.rs:379-424 | field k of step i is step i of splitting field k, at every depth |
| Tensors.UnstackStack | crates/rlmesh-adapters/src/stateful.rs:379-395 | unstacking a stack of alike tensors gives them back |
| Tensors.StackUnstack | crates/rlmesh-spaces/src/tensor.rs:332-382 | the slices of a tensor stack back to it |
| Tensors.StackRefusedIff | crates/rlmesh-spaces/src/tensor.rs:332-357 | a stack is refused iff there are no frames, or two differ in dtype or shape |
| Tensors.BytesAreItsElements | crates/rlmesh-spaces/src/tensor.rs:226-233 | a tensor's bytes are the bits of as many elements as its shape says |
| Tensors.RangeIsStored | crates/rlmesh-spaces/src/scalar.rs:190-223 | an integer dtype's range is what its bytes can tell apart, half of it negative in a signed one |
| ValueDiff.ValueMaxAbsDiff | crates/rlmesh-adapters/src/stateful.rs:656-692 | the recursion returns the drift: the greatest difference of corresponding elements, or none |
| ValueDiff.TensorDrift | crates/rlmesh-adapters/src/stateful.rs:658-669 | tensors of one shape drift by the greatest distance of two elements at one place; others not at all |
| ValueDiff.ScalarsDriftAsTensors | crates/rlmesh-adapters/src/stateful.rs:671-673 | flags, integers and numbers drift as the one-element tensors that hold them |
| ValueDiff.ItemsDrift | crates/rlmesh-adapters/src/stateful.rs:674-682 | lists and tuples drift by their worst item, defined iff as long as each other and every item's is |
| ValueDiff.FieldsDrift | crates/rlmesh-adapters/src/stateful.rs:683-689 | maps drift by their worst field, defined iff the keys are the same and every field's is |
| ValueDiff.DriftSymmetric | crates/rlmesh-adapters/src/stateful.rs:656-692 | drift and its definedness are symmetric |
| ValueDiff.DriftFromSelf | crates/rlmesh-adapters/src/stateful.rs:656-692 | a comparable value drifts by zero from itself |
| ValueDiff.DriftTriangle | crates/rlmesh-adapters/src/stateful.rs:656-692 | definedness is transitive and the triangle inequality holds |
| EditDistance.EditDistance | crates/rlmesh-adapters/src/fmt.rs:138-153 | the one-row loop returns the recursive Levenshtein distance |
| EditDistance.LevIsCheapestScript | crates/rlmesh-adapters/src/fmt.rs:138-153 | that distance is the least cost of any edit script, and some script has it |
| EditDistance.LevSymmetric | crates/rlmesh-adapters/src/fmt.rs:138-153 | the distance is symmetric |
| EditDistance.LevZeroIffEqual | crates/rlmesh-adapters/src/fmt.rs:138-153 | it is zero exactly on equal strings |
| EditDistance.LevTriangle | crates/rlmesh-adapters/src/fmt.rs:138-153 | it satisfies the triangle inequality, by composing scripts |
| PathNames.TextIdentifiesIff | crates/rlmesh-adapters/src/path.rs:68-86 | the text identifies the paths with non-empty keys over an alphabet, iff it lacks the dot, lacks a bracket or all digits, and cannot spell the root's name |
| PathNames.PlainPathsReadApart | crates/rlmesh-adapters/src/path.rs:68-86 | two paths with non-empty keys free of dots and opening brackets, neither the root's name, render alike only if equal |
| PathNames.DottedKeysCollide | crates/rlmesh-adapters/src/path.rs:68-86 | every dotted key renders as the two keys around its dot |
| PathNames.EmptyKeysCollide | crates/rlmesh-adapters/src/path.rs:68-86 | an empty first key before an index renders as the index alone |
| PathNames.DecimalDenotes | crates/rlmesh-adapters/src/path.rs:81 | the text of an index denotes it |
| PathNames.StacksKeepEveryEntryIff | crates/rlmesh-adapters/src/plans.rs:261-266 | the summary keyed by text keeps every entry iff no two stacked placements render alike |
| PathNames.StacksShowTheLast | crates/rlmesh-adapters/src/plans.rs:261-266 | under each name stands the depth of the last entry that renders so |
| PathNames.PlainStacksKeepEveryEntry | crates/rlmesh-adapters/src/plans.rs:261-266 | placements over plain keys lose none |
| Trees.CollectLeaves | crates/rlmesh-adapters/src/resolver.rs:427-445 | the recursive walk appends exactly the leaves with their paths, in tree order |
| Trees.LeafPathsApart | crates/rlmesh-adapters/src/resolver.rs:427-445 | leaf paths are pairwise distinct, none a prefix of another |
| Spaces.ReachFurther | crates/rlmesh-adapters/src/space_view.rs:62-82 | following a longer path is following its parts in turn |
| Spaces.ChildIsListed | crates/rlmesh-adapters/src/space_view.rs:62-70 | a Dict's child is the one beside the first listing of its key, and nothing else has children by key |
| Spaces.NumelMultiplies | crates/rlmesh-adapters/src/space_view.rs:54-59 | element counts of joined shapes multiply; one axis counts its length, an unknown one 0 |
| Join.JoinTree | crates/rlmesh-adapters/src/join.rs:259-321 | the recursive join pushes what `JoinNode` lists, or stops at its first error |
| Join.JoinDict | crates/rlmesh-adapters/src/join.rs:276-291 | the loop over a dict node joins each entry against the child space of its key |
| Join.JoinTuple | crates/rlmesh-adapters/src/join.rs:292-318 | the loop over a tuple node joins each item against the child space at its index |
| PathSoundness.JoinFlattens | crates/rlmesh-adapters/src/join.rs:259-321 | the recursive join is the leaf-by-leaf join against the spaces the paths reach |
| PathSoundness.JoinAcceptedIff | crates/rlmesh-adapters/src/join.rs:259-321 | a join is accepted iff every Dict node meets a Dict space with its keys, every Tuple node a Tuple space of its arity, and every leaf joins the node its path reaches |
| PathSoundness.JoinIsPathSound | crates/rlmesh-adapters/src/join.rs:259-321 | every feature's path reaches the node it was joined against; every leaf is joined, exactly the unknown ones are recorded; paths are prefix-free |
| JoinedFeatures.LeafJoins | crates/rlmesh-adapters/src/join.rs:322-427 | a leaf joins iff its class, role, widths, labels and range fit the node, and what it joins to describes that node: an image's dims in its layout, a state's width, labels and range, a text's role, a split's fields |
| JoinedFeatures.FeaturesDescribeTheirNodes | crates/rlmesh-adapters/src/join.rs:259-427 | the features of an accepted join are, leaf by leaf in tree order and nothing else, such descriptions of the nodes the paths reach |
| JoinedFeatures.TagsAcceptedIff | crates/rlmesh-adapters/src/join.rs:259-427 | a tag tree is accepted iff it fits the space and every leaf fits the node its path reaches |
| JoinedFeatures.JoinErrorHasCause | crates/rlmesh-adapters/src/join.rs:259-427 | a refused tag tree has, at some node or leaf, the fault its error names |
| PathSoundness.LeafAtItsPath | crates/rlmesh-adapters/src/path.rs:28-64 | a leaf's path leads back to that leaf in its own tree |
| PathSoundness.LeafIsListed | crates/rlmesh-adapters/src/resolver.rs:427-445 | every leaf of a tree is listed under the path that leads to it |
| Layouts.CheckedSum | crates/rlmesh-adapters/src/join.rs:451-455 | the checked sum of dims, none exactly on u32 overflow |
| Layouts.SliceRangeIsCommonBound | crates/rlmesh-adapters/src/join.rs:547-570 | a slice's range is the common finite bound of all its elements, iff there is one; an empty slice's is the one broadcast to all |
| Layouts.UniformLeafGivesItsRange | crates/rlmesh-adapters/src/join.rs:547-591 | a uniformly bounded leaf gives a slice its own range, iff the slice is not empty or both bounds are broadcast |
| Layouts.ReconcileTwice | crates/rlmesh-adapters/src/join.rs:519-542 | reconciling a reconciled range changes nothing |
| Layouts.ReconcileGives | crates/rlmesh-adapters/src/join.rs:519-586 | a tag is refused iff a common bound exists and is not within a millionth of it; else the slice has its tag's range, or that bound |
| Layouts.KnownKindIff | crates/rlmesh-adapters/src/roles/registry.rs:31-40 | a role passes iff it has no slash, or the text before its first is a defined kind or `x` |
| Layouts.SlicesTile | crates/rlmesh-adapters/src/join.rs:437-513 | every element of the vector lies in exactly the slice it is found in |
| SplitLayouts.JoinSplit | crates/rlmesh-adapters/src/join.rs:437-513 | the loop with a running offset returns `Split`, first error included |
| SplitLayouts.AcceptedSplitTiles | crates/rlmesh-adapters/src/join.rs:437-513 | accepted fields tile the leaf in order; offsets, ranges and identities are as declared |
| SplitLayouts.SplitAcceptedIff | crates/rlmesh-adapters/src/join.rs:437-513 | a layout is accepted iff the leaf is numeric, the dims sum to its elements and no roled field contradicts its encoding, role, range or an earlier field |
| SplitLayouts.SplitErrorHasCause | crates/rlmesh-adapters/src/join.rs:437-513 | a refused layout has the fault its error names |
| SplitLayouts.TilesTheWholeLeafIff | crates/rlmesh-adapters/src/join.rs:668-670 | the whole leaf is tiled iff it is no wider than u32 |
| SplitLayouts.WideLeafIsCutOff | crates/rlmesh-adapters/src/join.rs:450-462 | a leaf of any greater width is accepted and tiled only up to u32 |
| SplitLayouts.ZeroWidthFieldHasNoRange | crates/rlmesh-adapters/src/join.rs:559-570 | a zero-width untagged field over element-wise uniform bounds joins and gets no range |
| ActionLayouts.ResolveAction | crates/rlmesh-adapters/src/join.rs:600-656 | the loop with a running offset returns `Resolve`, first error included |
| ActionLayouts.AcceptedActionTiles | crates/rlmesh-adapters/src/join.rs:600-656 | accepted components tile the action vector; each takes its slice's bound or keeps its agreeing tag |
| ActionLayouts.ActionAcceptedIff | crates/rlmesh-adapters/src/join.rs:600-656 | an action layout is accepted iff the space is a Box, the dims sum to its elements and no roled component contradicts its encoding, role or range |
| ActionLayouts.ActionErrorHasCause | crates/rlmesh-adapters/src/join.rs:600-656 | a refused layout has the fault its error names |
| ActionLayouts.ResolveTwice | crates/rlmesh-adapters/src/join.rs:600-656 | resolving a resolved layout succeeds and changes nothing |
| Binding.IndexByKey | crates/rlmesh-adapters/src/resolver.rs:221-241 | the loop indexes exactly the offered leaves, refusing iff two share a key |
| Binding.BindNeverGuesses | crates/rlmesh-adapters/src/resolver.rs:284-378 | a bound leaf has the role and any named part; it is the only one there or the preferred accepted one; a rebind is the only part and is noted once |
| Binding.BindFindsNothingIff | crates/rlmesh-adapters/src/resolver.rs:303-317 | nothing binds iff the role is not offered, under the named part if one is named |
| Binding.BindRefusesIff | crates/rlmesh-adapters/src/resolver.rs:317-372 | each refusal exactly when its cause holds: several parts, or several leaves and none accepted |
| Binding.BindIgnoresOtherRoles | crates/rlmesh-adapters/src/resolver.rs:284-378 | leaves of other roles do not affect a bind |
| Binding.RefusalIgnoresOrder | crates/rlmesh-adapters/src/resolver.rs:221-241 | permuted declarations are refused alike |
| Binding.BindIgnoresOrder | crates/rlmesh-adapters/src/resolver.rs:221-241 | permuted declarations index and bind alike |
| Binding.BoundAndCheckedIsAccepted | crates/rlmesh-adapters/src/resolver.rs:141-199 | bound and checked against an accept set: an accepted provenance silently, or none declared with one caution |
| Binding.CheckRefusesIff | crates/rlmesh-adapters/src/resolver.rs:141-199 | the check refuses exactly a provenance it does not know, an accept set of none it knows, and disagreement |
| Binding.CheckRecords | crates/rlmesh-adapters/src/resolver.rs:174-198 | what passes is recorded as the env declares it, silently, or as all the accepted ones joined, with one caution |
| Editions.SealedWorkflowEditions | scripts/bump_version.py:90-95 | the loop lists the sealed editions in file order |
| Editions.BumpKeepsTheListExact | scripts/bump_version.py:128-192 | after every bump the declared list is the current edition, then every other sealed one in file order |
| Editions.ListedIsExact | scripts/bump_version.py:134-139 | that list has no repeats and no other edition |
| Editions.CurrentHasItsTable | scripts/bump_version.py:128-192 | the new current edition is named for the base, or for the prerelease, and has its table; each table not there before is that one: sealed in the stable version with the digest, or provisional, with the base's spec |
| Editions.TablesStayInPlace | scripts/bump_version.py:101-125 | a bump moves no table: it writes over one that gives way, appends, or takes out the old provisional one |
| Editions.SealedTablesSurviveIff | scripts/bump_version.py:178-192 | a bump leaves every sealed table unchanged, iff it is not a prerelease naming a sealed edition |
| Editions.CollidingRunUnseals | scripts/bump_version.py:128-192 | for every base and prerelease, a run of bumps and base edits reaches a bump that rewrites a sealed table |
| Editions.BumpKeepsLineage | scripts/bump_version.py:108-113 | any other bump leaves only the current table provisional, and none after a stable one |
| Editions.LineageOverEveryRun | scripts/bump_version.py:128-192 | over every run without a colliding bump: sealed tables unchanged, one provisional at most, exact list |
| Editions.RunKeepsSealedIff | scripts/bump_version.py:128-192 | over every run, each step leaves the sealed tables unchanged, iff no bump of the run collides |
| Editions.SealedTablesNameTheirBump | scripts/bump_version.py:163-170 | over every run, a sealed table was there at the start or carries the version and digest of the stable bump that sealed it |
| Editions.StableReleaseShipsNoProvisional | scripts/bump_version.py:108-113 | no stable release of any run ships a provisional table |
| Editions.PlainNamesNeverCollide | scripts/bump_version.py:128-139 | with dash-free bases no run contains a colliding bump |
| Editions.SyncedFileIsTheList | scripts/bump_version.py:195-208 | right after a bump the synced file is the declared list |
| Editions.ReleaseBuildOffersTheList | crates/rlmesh-proto/build.rs:137-184 | a release build of a bumped checkout is accepted and offers exactly the declared list |
| Editions.PackagedBuildOffersTheListIff | crates/rlmesh-proto/build.rs:119-131 | a packaged build offers exactly that list, iff the base has no dash |
| Editions.DevBuildDropsTheRelease | crates/rlmesh-proto/build.rs:171-184 | a dev build leads with its own cohort, keeps the rest and never claims the release |
| Editions.BuildOffersOrRefuses | crates/rlmesh-proto/build.rs:119-184 | any build is refused iff its file is empty or not the checkout's list; else it leads with its own edition under its base and offers the file's others |
| ManifestScan.ManifestStringList | crates/rlmesh-proto/build_manifest.rs:15-40 | the loop over lines returns the scan of the whole text |
| ManifestScan.ItemIff | crates/rlmesh-proto/build_manifest.rs:35-38 | an entry has a value iff, space aside, it starts with that value in quotes |
| ManifestScan.ValuesBoth | crates/rlmesh-proto/build_manifest.rs:33-39 | a comma separates the values before it from those after it |
| ManifestScan.ValuesPadded | crates/rlmesh-proto/build_manifest.rs:33-39 | space around a text changes none of its values |
| ManifestScan.ScanReadsTheArray | crates/rlmesh-proto/build_manifest.rs:15-40 | any spreading over lines with indents, comments, blank rows and trailing commas reads the same names |
| ManifestScan.PrintThenScan | scripts/bump_version.py:98-99 | scanning the printed list gives it back, whatever stands around the line |
| ManifestScan.ScanReturnsPlainNames | crates/rlmesh-proto/build_manifest.rs:21-39 | whatever the text, a scan returns only names free of quotes, commas, closing brackets and hashes |
| ManifestScan.PrintThenScanIff | scripts/bump_version.py:98-99 | a printed list scans back iff all its names are such |
| ManifestScan.NoArrayNoValues | crates/rlmesh-proto/build_manifest.rs:18-20 | a text in which no line opens the array has no values |
| ManifestScan.RetainedReadsBack | crates/rlmesh-proto/build.rs:139-145 | the file written one edition to a line is read back as the list |
| ManifestScan.RetainedIff | crates/rlmesh-proto/build.rs:139-145 | what is read from any file are its lines without the space around them, empty ones left out |
| Texts.TrimTakesTheSpace | crates/rlmesh-proto/build.rs:141-142 | trimming takes all the space around a text and nothing else |
| Affected.Owner | scripts/dev/affected.py:108-116 | the running best returns `OwnerOf` |
| Affected.OwnerIsDeepest | scripts/dev/affected.py:108-116 | the owner is the first listed package with the deepest containing directory, and there is one iff some package below the root contains the path |
| Affected.OwnerIgnoresOrder | scripts/dev/affected.py:108-116 | with one package to a directory the owner does not depend on their order |
| Affected.PartsAreThePieces | scripts/dev/affected.py:137 | a path's parts are its pieces between slashes, without the empty and `.` ones |
| Affected.CloseOver | scripts/dev/affected.py:143-149 | on any graph the worklist ends with the least set holding the seeds and closed under dependents |
| Affected.MakePlan | scripts/dev/affected.py:119-156 | the plan is the whole workspace, or that closure with the Python and C# flags it implies |
| Affected.SelectionReachesItsUsers | scripts/dev/affected.py:137-149 | a selection holds the owners and, with each package, all that use it, and is the least such set |
| Affected.PlanIsUnique | scripts/dev/affected.py:119-156 | the inputs determine the plan |
| Affected.PlanOfBoth | scripts/dev/affected.py:119-156 | the plan of two change lists together is the merge of their plans, workspace inputs and changed dependency groups included |
| Affected.OneFileSelects | scripts/dev/affected.py:38-61 | which single files select the whole workspace, Python and C#, by name |
| DependencySnapshot.Visit | scripts/dev/affected.py:209-229 | a key's records are those of every package of its name, and exactly what they need is queued |
| DependencySnapshot.LeadsToIff | scripts/dev/affected.py:209-228 | a key leads to another iff some package of its name asks for that one, itself or through an asked extra |
| DependencySnapshot.RootsIff | scripts/dev/affected.py:194-199 | the roots are what the C# groups of the virtual packages list |
| DependencySnapshot.RecordShowsIff | scripts/dev/affected.py:214-225 | a record shows a package's fields, dependencies and asked extras, and nothing else |
| DependencyGroups.IncludeGroup | scripts/dev/affected.py:184-190 | on any groups the walk enters exactly what it leads to beyond the groups already entered, each with its entries |
| DependencyGroups.IncludesIff | scripts/dev/affected.py:187-190 | a group leads to exactly those its own entries include |
| DependencyGroups.InputsChangeIff | scripts/dev/affected.py:181-192 | the group inputs change iff a group that is reached changes |
| DependencySnapshot.TakeSnapshot | scripts/dev/affected.py:193-229 | on any lock file the worklist ends with the least closed set of keys over the roots, each with its records |
| DependencySnapshot.CsharpSnapshot | scripts/dev/affected.py:178-230 | the snapshot as returned: the groups the C# group reaches, the roots and the reached records |
| DependencySnapshot.WholeSnapshotChangesIff | scripts/dev/affected.py:233-251 | two snapshots differ iff a reached group, a root or a reached record does |
| DependencySnapshot.SnapshotChangesIff | scripts/dev/affected.py:192-230 | the snapshot is unchanged iff the roots and every reached record are |
| DependencySnapshot.UnreachedPackageIsInvisible | scripts/dev/affected.py:209-229 | a package that is not reached can come or go anywhere |
| DependencySnapshot.UnreachedExtrasAreInvisible | scripts/dev/affected.py:213-228 | extras no reached key asks for, other groups and metadata can change freely |
| ReleaseUpload.ChecksumReadsBack | scripts/release.py:221-224 | the first word of a checksum file is its digest |
| ReleaseUpload.FirstWordIs | scripts/release.py:243 | the first word of any text stands after space alone and ends at space or the end; all space has none |
| ReleaseUpload.UploadsSupply | scripts/release.py:227-252 | an attempt is refused iff an orphan checksum is another build's; else it uploads exactly the missing halves, from the published half where there is one |
| ReleaseUpload.Release.Attempt | scripts/release.py:255-303 | an attempt adds what landed of its uploads; it is refused exactly when they are, and then changes nothing |
| ReleaseUpload.UploadsAreSafe | scripts/release.py:227-303 | over every run of retries, interruptions and orphan deletions, tarballs are never replaced and every checksum is the hash of its published tarball |
| ReleaseUpload.FinishedAttemptCompletes | scripts/release.py:255-303 | an attempt neither refused nor interrupted leaves both halves of every distribution |
| ReleaseUpload.CompleteIsFinal | scripts/release.py:238-239 | from then on retries upload nothing and nothing changes |
| ReleaseUpload.NoOrphanNoRefusal | scripts/release.py:242-250 | deleting the orphan checksums lifts any refusal |

## Left out

- MemoryBound.EpisodeWithinBudget: frames as pushed have the planned size, the case the budget is computed for; an adapter that reads its previous action also keeps to the chunk protocol without failed events.
- ActionRows.ActionRowsAre: for clean runs that keep up; a failed event leaves the protocol the count is about.
- RouteFrames.BatchRecords: for lanes of distinct episodes; lanes without one share the empty id in the source.
- Binding.BoundAndCheckedIsAccepted: counts the cautions of the check, not their wording.
- Editions.BumpKeepsLineage: tables are sealed or provisional; a table with another status, which the policy check refuses, is not modelled.
- ReleaseUpload.UploadsAreSafe: the digest of a file is any function whose values are non-empty words; no two attempts run at once.
- The payload tree is a map from placements to values; that leaf placements are prefix-free (`Trees.LeafPathsApart`) is what makes this the same as walking the tree.
- `i64` steps, `u64` byte counts and `usize` lengths are unbounded integers; only the `u32` dims of layouts carry their width.
- Floating point is exact real arithmetic: no rounding, NaN or signed zero. Bounds may be infinite.
- Image resizing, JPEG, rotation conversion and dtype casts are host functions that return a value or fail.
- What a failed engine call leaves behind is modelled call by call; run theorems are about runs without failed calls, except where they speak of the failing event itself.
- The conversion of model actions to space values is a host function that returns a row and a value or fails.
- `check_geometry`, planners for state, text and custom inputs, and role hints beyond the edit distance.
- Error wording, advisory text and `describe.rs`: only error causes and advisory counts are kept.
- The regular expressions that edit the manifest text, SemVer parsing, the policy checker's sort key, and git calls: the manifest is a record with an ordered list of tables, all in one run.
- Malformed lock files, and process launching in `affected.py`.
- Unicode whitespace: trimming and splitting are over ASCII whitespace.
- The C API, C# and Unity tooling, packaging, wheels and the network servers.
