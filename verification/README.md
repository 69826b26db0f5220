# World Transvoxel model

A Dafny model of the parts of World Transvoxel in which several pieces of state have to agree, with proofs that they do.
Run `dafny verify dfyconfig.toml` in this directory.

- **The edit pipeline.** Edit commands in signed 16.16 units (`EditCommands`), their effect on one sample and one page
  (`SampleEdits`, `PageEdits`, `PageProperties`), what each operation leaves there (`SampleEffects`, `PageEffects`), refusals
  (`PageRollback`), the smoothed maximum (`Smoothing`, its overflow in `Rounding` and `Blending`), and the in-place editor
  (`ChunkEditStates`), the hashed container and the typed transaction codec (`Bytes`, `Containers`, `TransactionCodec`,
  `TransactionFiles`, `TransactionRoundTrip`, `TransactionIO`), which bytes they accept (`ContainerForms`,
  `TransactionForms`), rebasing (`Rebase`), the append-only journal (`Journals`, `JournalProperties`, `JournalReplay`,
  `EditJournals`), the spatial invalidation index (`SpatialIndex`, `EditSpatialIndexes`, `Invalidation`), the retained
  surface-shift records (`SurfaceShift`, the answers from them in `SurfaceShiftRecords`), and the page source used while
  compacting a snapshot (`CompactionPages`, `CompactionSources`).
- **The GPU meshing shadow queue.** Jobs and requests (`ShadowJobs`), each locked method as one step of a queue value
  (`ShadowQueues`), what every step keeps (`ShadowQueueInvariants`), promises of calls and of whole runs
  (`ShadowQueueProperties`, `ShadowQueueReservations`, `ShadowQueueResolutions`, `ShadowQueueVerdicts`,
  `ShadowQueueAnswers`, `ShadowQueueDrops`), what the counters tell (`ShadowQueueLedger`), the bounds of each class of work
  (`ShadowQueueClasses`), where promises end (`ShadowQueueModes`), and the queue object (`GpuMeshingShadow`).
- **The mesh finalizer.** Edges, winding and what forces it (`MeshTopology`), and the breadth-first pass, the outward turn
  and the vertex compaction (`MeshFinalize`), and how far a triangle faces outward (`MeshAlignment`).
- **Grids and keys.** Octree keys and bricks (`ChunkKeys`), the in-memory grid (`DenseGrids`) and the block-cached file
  grid (`CachedGrids`, `DenseFileGrids`), with what failed reads do to it (`FailedReads`).

## How the model is built

Code that changes state is a class whose methods are proved against a function on values; the properties are then proved
about that function, for every input and every sequence of calls. Machine integers are ranges (`Numbers`), with wrap-around,
saturation and truncating division written out. Binary32 values are bit patterns with exact comparison (`Floats`); every
rounding operation of the host (sums, differences, products, quotients, brush depths) is a field of an `Arithmetic` record
that all results quantify over. Where a result is about overflow in binary32, it asks for correct rounding, ties to even
(`Rounding`, `Blending.Binary32`), which is shown to be satisfiable, and derives the overflow from it. SHA-256 is an
arbitrary function from bytes to 256-bit digests, mesh positions are their quantised keys, and the finalizer takes any
alignment of triangles; that of the program is given in exact arithmetic (`MeshAlignment`). Capacities, clocks, file reads
and the choice of arithmetic are parameters.

## Where the code and its promises part

Each of these is stated and proved, with the condition under which the promise does hold.

- Shared samples of neighbouring pages are meant to stay identical, but a signed-distance brush reaches one unit past the
  bounds the page-skip test uses, so a brush exactly tangent at a shared sample edits one page only
  (`PageProperties.TangentCommandSplitsASharedSample`; exact condition `PageEdits.AgreementAfterOneCommand`).
- A command refused as non-finite is meant to leave the page alone, but the failing sample itself may have been assigned
  (`PageRollback.RefusedCarveLeavesItsMark`). For every page the refusal leaves it reading as before exactly when that
  sample gave up unassigned or got its own values back (`PageProperties.RollbackIsCompleteExactlyBeforeWriting`). Told
  before the call, for every page that can be edited and every arithmetic: exactly unless the first reached sample on which
  the command cannot succeed is one it leaves a mark on (`PageRollback.RefusalMarksExactly`), which on a finite sample means
  that the smoothed density is infinite. In binary32 that takes two comparisons of the density and the brush depth
  (`PageRollback.BrushOverflowsExactly`, `Blending.BlendOverflowsExactly`): their difference overflows, or one is the largest
  number and the difference is rounded up beside it; it never happens to densities below 2^103
  (`PageRollback.OrdinaryRefusalsRollBack`).
- The spatial index is meant to return exactly the pages reached; bounds outside the 32-bit key space on one axis also
  return chunks at coordinate zero of it (`EditSpatialIndexes.FarBoundsReachTheOriginChunk`; exact answer
  `SpatialIndex.WalkIsExact`).
- `docs/contracts/GPU_MESHING_SHADOW_CONTRACT.md` (lines 22-25) says an unrelated edit cannot discard another page's queued
  capture. Outside lossless mode a reservation of higher priority can
  (`ShadowQueueModes.UnrelatedWorkIsKeptExactlyInLosslessMode`). A refused reservation may already have dropped requests
  (`ShadowQueueModes.RefusalMayHaveDroppedWork`; exact condition `ShadowQueueAnswers.RefusalDropsNothingExactly`), and a
  capture replacing on a full class keeps its pages even without publication authority
  (`ShadowQueueModes.PagesAreStrippedUnlessTheClassIsFull`).
- `IMPLEMENTATION_CHARTER.md` (lines 1775-1781 and 2397-2404) keeps four of sixteen slots for committed edits and lets all
  other work share twelve. Each class is held against its own bound only: once player-visible work fills twelve places,
  ordinary work still takes the other four, and edits are refused (`ShadowQueueClasses.EditsAreLockedOut`; exactly when a
  capture or a reservation takes such a place, `ShadowQueueClasses.CaptureTakesAnEditPlace` and
  `ShadowQueueClasses.ReservationTakesAnEditPlace`).
- Which of several equally urgent requests is popped can depend on how the queue is arranged
  (`ShadowQueueProperties.TiesDependOnArrangement`; exact condition `ShadowQueueProperties.PickIsIndependentExactly`).
- The cached file grid equals the dense grid while reads succeed; a short read lays foreign bytes under an old block's name,
  and later calls are answered from them (`FailedReads.FailedReadIsServedLater` says exactly when such an answer is wrong).
  Some failing load of a block breaks the slot exactly when the slot is in use and the files differ between the two blocks
  where that load can overwrite (`FailedReads.SomeFailedLoadPoisons`).

## Model

| member | source | states |
|---|---|---|
| Numbers.FloorDivideIsFloor | addons/world_transvoxel/src/editing/wt_edit_types.cpp:11-17 | the machine quotient adjusted by the sign of its remainder is the mathematical floor, for every sign |
| Numbers.CeilDivideIsCeiling | addons/world_transvoxel/src/editing/wt_edit_types.cpp:19-25 | likewise the ceiling |
| ChunkKeys.NestedOrDisjoint | addons/world_transvoxel/src/core/wt_chunk_key.cpp:8-74 | two valid keys have overlapping open boxes exactly when one is an ancestor of, or equal to, the other, negative coordinates included |
| ChunkKeys.AncestorContains | addons/world_transvoxel/src/core/wt_chunk_key.cpp:51-74 | an ancestor's box contains the whole box of its descendant |
| ChunkKeys.ScaledIsProduct | addons/world_transvoxel/src/core/wt_chunk_key.cpp:43-62 | counting cells by doubling equals multiplying by the cell size the program shifts out |
| ChunkKeys.BrickAndChildAreInverse | addons/world_transvoxel/src/core/wt_chunk_brick.cpp:100-149 | brick-of-child and child-of-brick undo each other in both directions, wherever the 32-bit check passes |
| ChunkKeys.BrickIsItsChildBox | addons/world_transvoxel/src/core/wt_chunk_brick.cpp:45-60 | a brick and the child chunk it stands for are the same box |
| ChunkKeys.EveryChildHasABrick | addons/world_transvoxel/src/core/wt_chunk_brick.cpp:100-121 | the local-coordinate check never fails for a direct child of a valid parent |
| EditCommands.CoverageStaysNearBounds | addons/world_transvoxel/src/editing/wt_chunk_edit_state.cpp:87-120 | a covered sample lies within one unit of the stored integer bounds, and inside them unless a signed-distance brush is exactly tangent there |
| EditCommands.CoverageIsTheShape | addons/world_transvoxel/src/editing/wt_chunk_edit_state.cpp:45-120 | neither the bounds test nor the axis tests lose a point: a valid command covers its box, or the ball of its radius, one grid unit and the smoothing wider for a signed-distance brush |
| EditCommands.ValidCommandsExactly | addons/world_transvoxel/src/editing/wt_edit_types.cpp:158-200 | operation by operation what a valid command may carry: density, material, smoothing, shape, and the bounds of its shape |
| EditCommands.SphereBoundsExist | addons/world_transvoxel/src/editing/wt_edit_types.cpp:104-134 | a sphere has bounds exactly when it has a radius and its smoothed ball fits 64-bit coordinates |
| EditCommands.BoundsAreTight | addons/world_transvoxel/src/editing/wt_edit_types.cpp:104-134 | on every axis the sphere bounds cover the smoothed extent and reach less than one unit past it |
| EditCommands.ValidBoundsAreOrdered | addons/world_transvoxel/src/editing/wt_edit_types.cpp:136-158 | a valid command's bounds are ordered and stay within 2^47 units |
| SampleEdits.IndexOfCoordinates | addons/world_transvoxel/src/editing/wt_chunk_edit_state.cpp:361-375 | storage index and lattice coordinates name the same world point |
| SampleEdits.PageSpansItsPoints | addons/world_transvoxel/src/editing/wt_chunk_edit_state.cpp:377-402 | every stored sample lies in the padded box the page-skip test uses |
| SampleEdits.SkippedCoverageIsAtTheRim | addons/world_transvoxel/src/editing/wt_chunk_edit_state.cpp:377-402 | a page holding a covered sample is skipped exactly when that sample sits on the page rim one unit outside the bounds, which is a tangent point |
| PageEdits.ReplayIsPointwise | addons/world_transvoxel/src/editing/wt_chunk_edit_state.cpp:404-454 | after any accepted replay each non-tangent sample has the value its world point alone determines |
| PageEdits.OverlapAgreement | addons/world_transvoxel/src/editing/wt_chunk_edit_state.cpp:240-258 | two pages of any levels that agree at a shared point before a replay agree there after it, tangent brushes excepted |
| PageEdits.AgreementAfterOneCommand | addons/world_transvoxel/src/editing/wt_chunk_edit_state.cpp:377-402 | for one accepted command, tangent or not, agreement survives exactly when both pages are reached or both skipped, or the command does nothing at the point |
| PageProperties.ReplayBookkeeping | addons/world_transvoxel/src/editing/wt_chunk_edit_state.cpp:563-590 | which hull, shift flag and key every accepted replay leaves behind |
| PageProperties.HullIsLeast | addons/world_transvoxel/src/editing/wt_chunk_edit_state.cpp:566-581 | the dirty hull is the least box holding the bounds of the commands that reached the page |
| PageProperties.UnreachedPageIsUntouched | addons/world_transvoxel/src/editing/wt_chunk_edit_state.cpp:544-590 | commands that cannot reach a page leave everything but its revision and sequence alone |
| PageProperties.ReplayKeepsFinite | addons/world_transvoxel/src/editing/wt_chunk_edit_state.cpp:355-359 | an accepted replay leaves each sample untouched or finite in density and water, whatever the page held |
| PageProperties.RefusedCommandRestores | addons/world_transvoxel/src/editing/wt_chunk_edit_state.cpp:430-454 | after a non-finite result every sample but the failing one reads as before, and no other field changed |
| PageProperties.RollbackIsCompleteExactlyBeforeWriting | addons/world_transvoxel/src/editing/wt_chunk_edit_state.cpp:430-454 | for every page, a refused command leaves it reading as before exactly when the failing sample gave up before it was assigned, or was assigned what stood there |
| PageProperties.OnlySdfBrushesLeaveAMark | addons/world_transvoxel/src/editing/wt_chunk_edit_state.cpp:260-359 | where the density is finite, only a signed-distance brush or non-finite water can fail and leave a mark |
| SampleEffects.EditedSampleHasEffect | addons/world_transvoxel/src/editing/wt_chunk_edit_state.cpp:260-359 | what each operation leaves at a covered sample, by comparisons: digging the higher of density and brush, filling the lower of density and brush turned round, water the lower or the higher of old and new depth, the others the value they carry; and exactly when the material is painted |
| SampleEffects.EffectIsTheEditedSample | addons/world_transvoxel/src/editing/wt_chunk_edit_state.cpp:260-359 | conversely, a finite sample that is what the operation should leave is, up to the sign of zero, the one it leaves |
| SampleEffects.SmoothsWhenAsked | addons/world_transvoxel/src/editing/wt_chunk_edit_state.cpp:121-131 | in binary32 a brush is smoothed exactly when its command gives a smoothing radius |
| Smoothing.BinaryBlendIsSmoothed | addons/world_transvoxel/src/editing/wt_chunk_edit_state.cpp:121-131 | in binary32, where the steps are numbers, the smoothed maximum is the larger number lifted by overlap squared over four radii |
| Smoothing.SmoothedIsTheLargerLifted | addons/world_transvoxel/src/editing/wt_chunk_edit_state.cpp:121-131 | that maximum is never below either number, exceeds the larger by a quarter of the radius exactly at a tie and by nothing exactly from a radius on, and is symmetric |
| PageEffects.AcceptedCommandLeavesItsEffect | addons/world_transvoxel/src/editing/wt_chunk_edit_state.cpp:404-454 | an accepted command leaves every covered, unsealed sample of a page it reaches finite and as the operation should, and every other sample as it was |
| PageEffects.AcceptedExactly | addons/world_transvoxel/src/editing/wt_chunk_edit_state.cpp:522-590 | a command in its turn is accepted exactly when each sample it edits can be left, finite, as the operation should |
| PageEffects.SealedSamplesStay | addons/world_transvoxel/src/storage/wt_procedural_world_descriptor.h:39-52 | no replay, accepted or refused, changes a sample in the sealed bottom of the world |
| PageEffects.AcceptedCommandCounts | addons/world_transvoxel/src/editing/wt_chunk_edit_state.cpp:448-453 | the counter rises by the number of samples that read differently, and the water summary lasts exactly until one does |
| PageEffects.OutOfTurn | addons/world_transvoxel/src/editing/wt_chunk_edit_state.cpp:522-543 | a command out of turn changes nothing, and which reason is given when |
| PageEffects.ReplayKeepsTheOrder | addons/world_transvoxel/src/editing/wt_chunk_edit_state.cpp:522-543 | a replay accepts only valid commands that follow one another without a gap, and refuses such commands only for a result that is not finite |
| PageRollback.FailureOnAFiniteSample | addons/world_transvoxel/src/editing/wt_chunk_edit_state.cpp:260-359 | on a finite sample, whatever the arithmetic, a command fails exactly where it has no result to write, leaving no mark, or where the smoothed density is infinite, leaving one |
| PageRollback.FailureOnFouledWater | addons/world_transvoxel/src/editing/wt_chunk_edit_state.cpp:260-359 | on a sample whose water is not finite only the water operation that mends it succeeds, and another leaves a mark exactly where it had something else to write |
| PageRollback.RefusalMarksExactly | addons/world_transvoxel/src/editing/wt_chunk_edit_state.cpp:404-454 | told before the call, for every page of finite densities and every arithmetic: when a command is refused, and that the page then reads differently exactly when the first sample it fails on is one it leaves a mark on |
| PageRollback.BrushOverflowsExactly | addons/world_transvoxel/src/editing/wt_chunk_edit_state.cpp:121-135 | in binary32 the smoothed density is infinite exactly when the brush is smoothed and its depth blends with the density past the largest number |
| Blending.BlendOverflowsExactly | addons/world_transvoxel/src/editing/wt_chunk_edit_state.cpp:122-131 | computed step by step in correctly rounded binary32, the smoothed maximum of finite numbers is infinite exactly when their difference overflows or is rounded up beside the largest number, not a number exactly when the difference overflows downwards, and never minus infinity |
| Blending.LargestMeetsAStepAndAHalf | addons/world_transvoxel/src/editing/wt_chunk_edit_state.cpp:122-131 | the largest number and 1.5 * 2^104 are such a pair although their difference does not overflow |
| Blending.SomeHostIsBinary32 | addons/world_transvoxel/src/editing/wt_chunk_edit_state.cpp:122-131 | correct rounding with ties to even asks nothing impossible: every real number has a rounding, so such an arithmetic exists |
| PageRollback.OrdinaryRefusalsRollBack | addons/world_transvoxel/src/editing/wt_chunk_edit_state.cpp:430-454 | in binary32, commands without smoothing, and smoothed brushes on densities below 2^103, never leave a mark on finite samples |
| PageRollback.RefusedCarveLeavesItsMark | addons/world_transvoxel/src/editing/wt_chunk_edit_state.cpp:122-133 | a valid smoothed carve of strength 1.75 * 2^127 one unit outside its sphere meets a density of that size: it is refused and leaves infinity there, whatever else the page holds |
| PageRollback.BinaryBlendOverflowsAtTheCorner | addons/world_transvoxel/src/editing/wt_chunk_edit_state.cpp:122-131 | the infinity that example needs is what binary32 gives for the blend |
| PageProperties.TangentCommandSplitsASharedSample | addons/world_transvoxel/src/editing/wt_chunk_edit_state.cpp:87-120 | a carve exactly tangent at a shared sample is seen by one page and skipped by its neighbour |
| PageProperties.PagesShareThePole | addons/world_transvoxel/src/editing/wt_chunk_edit_state.cpp:361-375 | that shared sample exists on both pages |
| ChunkEditStates.ChunkEditState.Initialize | addons/world_transvoxel/src/editing/wt_chunk_edit_state.cpp:478-520 | accepts exactly valid pages of finite densities of the expected source and then holds their initial state |
| ChunkEditStates.ChunkEditState.ApplyValues | addons/world_transvoxel/src/editing/wt_chunk_edit_state.cpp:404-454 | the in-place pass over the samples with its undo list computes the page function, on success and after a failure |
| ChunkEditStates.ChunkEditState.Rollback | addons/world_transvoxel/src/editing/wt_chunk_edit_state.cpp:430-446 | undoing the noted changes in reverse restores what was noted |
| ChunkEditStates.ChunkEditState.ApplyCommand | addons/world_transvoxel/src/editing/wt_chunk_edit_state.cpp:522-590 | one command: gate, pass, rollback and bookkeeping give exactly the page and status the replay theorems are about |
| SurfaceShift.NumberThenDecode | addons/world_transvoxel/src/storage/wt_chunk_surface_shift.cpp:43-74 | edge number and edge are inverse |
| SurfaceShift.DecodeThenNumber | addons/world_transvoxel/src/storage/wt_chunk_surface_shift.cpp:43-74 | a stored number decodes exactly below 3 * 16 * 17 * 17, and numbering the edge again gives it back |
| SurfaceShift.EdgeNamesAreExact | addons/world_transvoxel/src/storage/wt_chunk_surface_shift.cpp:87-189 | end points name an edge exactly when they are that edge's end points, in both directions of travel |
| SurfaceShift.SeparatedIsDistance | addons/world_transvoxel/src/editing/wt_edit_surface_shift_source.h:13-49 | the unsigned overflow-free test says exactly that more than one unit lies between the intervals |
| SurfaceShift.AnsweredEdgeIsUntouched | addons/world_transvoxel/src/editing/wt_edit_surface_shift_source.h:13-49 | on a coarse page, for every replay, a point of an edge answered from its record is covered by no command, and its unit halo by none that is not tangent there |
| SurfaceShift.RetainedRecordIsSound | addons/world_transvoxel/src/editing/wt_edit_surface_shift_source.h:13-49 | the edited field equals the original at every point of an answered edge, so the retained record may be used |
| SurfaceShift.ResolvedSegmentIsOnTheEdge | addons/world_transvoxel/src/storage/wt_chunk_surface_shift.cpp:191-271 | the segment a record refines lies on the edge asked for |
| SurfaceShiftRecords.RecordAnswersExactly | addons/world_transvoxel/src/storage/wt_chunk_surface_shift.cpp:191-271 | with records sorted by edge, an answer exists exactly if a record has the number of the edge asked for, an offset on it and finite samples on opposite sides; it carries those samples at that offset |
| SurfaceShiftRecords.EdgeIsAnsweredExactly | addons/world_transvoxel/src/editing/wt_edit_surface_shift_source.h:13-49 | the whole lookup answers exactly for retained edges out of reach of the dirty box, with the answer of the record |
| SurfaceShiftRecords.ReverseAnswersReversed | addons/world_transvoxel/src/storage/wt_chunk_surface_shift.cpp:191-271 | asking for the reverse of an edge gives the same answer with its ends exchanged |
| SpatialIndex.KeyRangeIsExact | addons/world_transvoxel/src/editing/wt_edit_spatial_index.cpp:69-107 | for 32-bit keys and all 64-bit bounds, saturating ends included, the axis range is exact |
| SpatialIndex.EmptyOnlyOutsideKeySpace | addons/world_transvoxel/src/editing/wt_edit_spatial_index.cpp:97-107 | an axis range is empty only for bounds outside the key space |
| SpatialIndex.WalkIsExact | addons/world_transvoxel/src/editing/wt_edit_spatial_index.cpp:159-248 | the walk visits exactly the keys whose padded page meets the bounds, plus those reached through an empty axis range walked at zero |
| SpatialIndex.NoSpuriousInsideKeySpace | addons/world_transvoxel/src/editing/wt_edit_spatial_index.cpp:159-248 | no spurious key for bounds that meet the key space on every axis |
| SpatialIndex.SortedListingIsUnique | addons/world_transvoxel/src/editing/wt_edit_spatial_index.cpp:250-266 | the sorted answer does not depend on set order |
| EditSpatialIndexes.FarBoundsReachTheOriginChunk | addons/world_transvoxel/src/editing/wt_edit_spatial_index.cpp:97-100 | bounds outside the key space on one axis return the origin chunk |
| EditSpatialIndexes.EditSpatialIndex.Rebuild | addons/world_transvoxel/src/editing/wt_edit_spatial_index.cpp:136-157 | all or nothing: a refused rebuild keeps the previous keys |
| EditSpatialIndexes.EditSpatialIndex.AppendBounds | addons/world_transvoxel/src/editing/wt_edit_spatial_index.cpp:159-248 | the level, row and cell loops collect exactly the walked keys, and stop for exactly the capacity they exceed |
| EditSpatialIndexes.EditSpatialIndex.QueryBounds | addons/world_transvoxel/src/editing/wt_edit_spatial_index.cpp:250-266 | on success the strictly sorted listing of the reached keys |
| EditSpatialIndexes.EditSpatialIndex.QueryTransaction | addons/world_transvoxel/src/editing/wt_edit_spatial_index.cpp:268-303 | succeeds exactly for well-formed transactions whose candidates, added up over the commands, and united results stay within the capacities; lists the keys reached by any command, and names a capacity only when it is exceeded |
| Invalidation.InvalidationIsSound | addons/world_transvoxel/src/editing/wt_edit_spatial_index.cpp:268-303 | replaying a queried transaction changes nothing but revision and sequence on an indexed page outside the result |
| Invalidation.IndexableIsWritable | addons/world_transvoxel/src/editing/wt_edit_transaction.cpp:446-470 | the index accepts exactly the transactions that can be written |
| Bytes.FieldsSurvive | addons/world_transvoxel/src/storage/wt_binary_io.cpp:16-75 | fields written little-endian read back, whatever follows |
| Bytes.FieldsRewrite | addons/world_transvoxel/src/storage/wt_binary_io.cpp:107-190 | writing back fields that were read gives the very bytes they were read from |
| Bytes.ShortRecordIsRefused | addons/world_transvoxel/src/storage/wt_binary_io.cpp:107-190 | a record cut short is refused |
| Bytes.Writer.WriteFields | addons/world_transvoxel/src/storage/wt_binary_io.cpp:16-75 | writes up to the capacity and never past it |
| Bytes.Reader.ReadFields | addons/world_transvoxel/src/storage/wt_binary_io.cpp:107-190 | reads exactly what the field decoder reads, never past the end |
| Containers.WrittenContainerReads | addons/world_transvoxel/src/storage/wt_container_format.cpp:116-308 | sections given in any order are written exactly when sorting them by kind gives a storable list, and reading gives that list back with the features and revision |
| Containers.ContainerMeasures | addons/world_transvoxel/src/storage/wt_container_format.cpp:310-396 | measuring bytes that start with a container finds exactly its length |
| Containers.PrefixIsTruncated | addons/world_transvoxel/src/storage/wt_container_format.cpp:310-396 | every proper prefix of a container measures as truncated |
| ContainerForms.WholeContainersAreLayouts | addons/world_transvoxel/src/storage/wt_container_format.cpp:116-396 | bytes read as a container and measure as nothing but it exactly when they are what writing its sections puts down |
| TransactionCodec.CommandSurvives | addons/world_transvoxel/src/editing/wt_edit_transaction.cpp:59-119 | a stored command reads back with its unused payload cleared, from a record of exactly 108 + payload + 32 bytes |
| TransactionForms.RecordDecodesExactly | addons/world_transvoxel/src/editing/wt_edit_transaction.cpp:217-299 | a record decodes to a command exactly when the command is valid and the bytes are its record in some schema up to 1.4 that can say it: smoothing from 1.2, material on construction from 1.1, water removal from 1.4 |
| TransactionForms.SectionDecodesExactly | addons/world_transvoxel/src/editing/wt_edit_transaction.cpp:301-341 | a command section decodes exactly when it names a schema and the number of commands and holds their records, in sequence and of one revision |
| TransactionFiles.SortIsAPermutation | addons/world_transvoxel/src/editing/wt_edit_transaction.cpp:446-470 | sorting by sequence orders the commands and keeps all of them |
| TransactionFiles.StrictOrderIsUnique | addons/world_transvoxel/src/editing/wt_edit_transaction.cpp:446-470 | a strictly ordered arrangement is the only ordered one |
| TransactionRoundTrip.WrittenForm | addons/world_transvoxel/src/editing/wt_edit_transaction.cpp:446-498 | writing succeeds exactly on writable transactions, never for lack of room, and its size is exact |
| TransactionRoundTrip.TransactionSurvives | addons/world_transvoxel/src/editing/wt_edit_transaction.cpp:500-551 | opening what was written returns the transaction, commands by sequence, unused payloads cleared |
| TransactionRoundTrip.InputOrderIsIrrelevant | addons/world_transvoxel/src/editing/wt_edit_transaction.cpp:446-498 | the bytes do not depend on the order the commands are given in |
| TransactionRoundTrip.StoredRewritesIdentically | addons/world_transvoxel/src/editing/wt_edit_transaction.cpp:446-551 | the opened form is written to the very same bytes |
| TransactionRoundTrip.OpenedIsCanonical | addons/world_transvoxel/src/editing/wt_edit_transaction.cpp:217-341 | whatever the bytes, a transaction that opens has valid commands in sequence, of one revision, with different identities |
| TransactionForms.TransactionOpensExactly | addons/world_transvoxel/src/editing/wt_edit_transaction.cpp:500-551 | bytes open as a transaction exactly when they are a container of three plain sections with its header, its commands and a commit over them, in schemas that can say them, and it is canonical |
| TransactionForms.CommitMatchesExactly | addons/world_transvoxel/src/editing/wt_edit_transaction.cpp:343-380 | a commit record fits exactly when it names the transaction, its revision, the number of commands and the digest of the section |
| TransactionRoundTrip.RecordsHaveTheirSizes | addons/world_transvoxel/src/editing/wt_edit_transaction.cpp:121-153 | the record sizes add up to the section the writer reserves |
| TransactionIO.EncodeCommand | addons/world_transvoxel/src/editing/wt_edit_transaction.cpp:59-119 | the cursor-moving encoder produces the stored record |
| TransactionIO.EncodeCommands | addons/world_transvoxel/src/editing/wt_edit_transaction.cpp:121-153 | the section writer sizes its buffer first and never overruns it |
| TransactionIO.CheckCommands | addons/world_transvoxel/src/editing/wt_edit_transaction.cpp:446-470 | the one-pass check with its set of identities accepts exactly canonical commands |
| TransactionIO.Write | addons/world_transvoxel/src/editing/wt_edit_transaction.cpp:446-498 | the writer equals the stored form |
| TransactionIO.DecodeRecord | addons/world_transvoxel/src/editing/wt_edit_transaction.cpp:217-299 | the cursor-moving decoder equals the record decoder |
| TransactionIO.ReadCommands | addons/world_transvoxel/src/editing/wt_edit_transaction.cpp:301-341 | the reading loop accepts exactly what the section decoder accepts |
| TransactionIO.Open | addons/world_transvoxel/src/editing/wt_edit_transaction.cpp:500-551 | opening performs every check and returns exactly the decoded transaction |
| Rebase.XorUndoesItself | addons/world_transvoxel/src/editing/wt_edit_transaction.cpp:382-396 | exclusive or with a key is undone by itself |
| Rebase.TransactionIdsAreExact | addons/world_transvoxel/src/editing/wt_edit_transaction.cpp:382-396 | derived transaction identities are equal only for equal revisions, and zero for one pair of revisions |
| Rebase.CommandIdsAreExact | addons/world_transvoxel/src/editing/wt_edit_transaction.cpp:398-419 | derived command identities are never zero and equal only for equal revision and sequence |
| Rebase.RebaseTransaction | addons/world_transvoxel/src/editing/wt_edit_transaction.cpp:421-444 | rewrites every command in place and refuses before changing anything |
| Rebase.LastRebaseWins | addons/world_transvoxel/src/editing/wt_edit_transaction.cpp:421-444 | rebasing twice is rebasing to the last base |
| Rebase.RebasedIsWritable | addons/world_transvoxel/src/editing/wt_edit_transaction.cpp:421-444 | a rebased transaction can be written exactly when its commands are valid but for their identities and the derived identity is not the reserved zero |
| JournalProperties.CommitKeepsSound | addons/world_transvoxel/src/editing/wt_edit_journal.cpp:71-84 | committing what validation accepted keeps the revision chain, the counters, the identity sets and the stored forms in step |
| JournalProperties.CommitAppendKeepsSound | addons/world_transvoxel/src/editing/wt_edit_journal.cpp:110-141 | committing bytes keeps the journal sound; refused bytes change nothing |
| JournalProperties.AppendAddsTheStoredForm | addons/world_transvoxel/src/editing/wt_edit_journal.cpp:86-158 | appending succeeds exactly when the transaction can be written and its stored form validates; what preparing accepts, committing accepts |
| JournalProperties.NextIsAccepted | addons/world_transvoxel/src/editing/wt_edit_journal.cpp:37-70 | each transaction of a sound journal is accepted, in its place, by the journal before it |
| JournalProperties.CutLoadsLongestPrefix | addons/world_transvoxel/src/editing/wt_edit_journal.cpp:160-229 | loading any cut of a saved journal yields exactly its longest run of whole transactions with their length; without recovery an inner cut is refused |
| JournalProperties.WholeSegments | addons/world_transvoxel/src/editing/wt_edit_journal.cpp:160-229 | the number of whole transactions in a cut: they fit, and one more would not |
| JournalProperties.SavedJournalLoads | addons/world_transvoxel/src/editing/wt_edit_journal.cpp:160-243 | loading what was saved is the identity on the journal |
| JournalProperties.LoadAccountsForEveryByte | addons/world_transvoxel/src/editing/wt_edit_journal.cpp:160-229 | whatever the bytes, a successful or recovered load holds a sound journal that saves to exactly the bytes it reports |
| JournalProperties.RefusedLoadReportsNothing | addons/world_transvoxel/src/editing/wt_edit_journal.cpp:160-229 | a load that neither succeeds nor recovers reports no bytes and leaves no journal; only a recovering load recovers |
| JournalProperties.RefusalsHaveTheirReason | addons/world_transvoxel/src/editing/wt_edit_journal.cpp:37-70 | a transaction validates exactly when it continues the journal, fits the capacities and brings no identity twice, and the reason given for refusing one is true |
| EditJournals.EditJournal.ValidateAppend | addons/world_transvoxel/src/editing/wt_edit_journal.cpp:37-70 | the checks in their order, with the loop over command identities |
| EditJournals.EditJournal.CommitAppend | addons/world_transvoxel/src/editing/wt_edit_journal.cpp:110-141 | measures, opens, rewrites and validates the bytes; refused bytes leave the journal as it was |
| EditJournals.EditJournal.Append | addons/world_transvoxel/src/editing/wt_edit_journal.cpp:143-158 | on success the journal grew by the stored form and the returned bytes are the ones it grew by; otherwise nothing changed and no bytes are returned |
| EditJournals.EditJournal.Load | addons/world_transvoxel/src/editing/wt_edit_journal.cpp:160-229 | a failed load leaves the receiver exactly as it was |
| EditJournals.EditJournal.Save | addons/world_transvoxel/src/editing/wt_edit_journal.cpp:231-243 | the concatenated segments; the size check never fails |
| EditJournals.EditJournal.SwapState | addons/world_transvoxel/src/editing/wt_edit_journal.cpp:290-301 | the two journals exchange everything but their capacities |
| EditJournals.ReplayUntil | addons/world_transvoxel/src/editing/wt_edit_journal.cpp:249-267 | stopping at the first later transaction feeds the sink exactly the commands up to the revision |
| EditJournals.ReplayAfterUntil | addons/world_transvoxel/src/editing/wt_edit_journal.cpp:269-288 | the sink gets exactly the commands between the two revisions |
| JournalReplay.ReplaySplits | addons/world_transvoxel/src/editing/wt_edit_journal.cpp:249-288 | replaying to a revision and then on from it equals replaying at once, for every sink that did not refuse |
| JournalReplay.ReplayedByRevision | addons/world_transvoxel/src/editing/wt_edit_journal.cpp:249-288 | between two revisions of a sound journal lie exactly the commands of the revisions after the one and up to the other, in order |
| JournalReplay.PageFollowsJournal | addons/world_transvoxel/src/editing/wt_chunk_edit_state.cpp:522-590 | a page at a revision of a sound journal never refuses it for a revision or sequence, only for a non-finite sample, and otherwise ends at the revision asked for |
| JournalReplay.FeedingAPageReplaysIt | addons/world_transvoxel/src/editing/wt_chunk_edit_state.cpp:592-594 | feeding a page through the sink interface is replaying it |
| JournalReplay.RebasedNeverCollides | addons/world_transvoxel/src/editing/wt_edit_journal.cpp:37-70 | a transaction rebased onto the head of a journal of such transactions is never refused for its revision or an identity |
| ShadowQueueInvariants.EveryReachableQueueIsSound | addons/world_transvoxel/src/diagnostics/wt_gpu_meshing_shadow.cpp:73-635 | after any sequence of calls: held requests and reserved slots fit the capacity, the slot counter is the sum over live reservations, identities differ, and captured = queued + in flight + superseded + resolved |
| ShadowQueueInvariants.CallKeepsInv | addons/world_transvoxel/src/diagnostics/wt_gpu_meshing_shadow.cpp:15-635 | each call keeps that invariant |
| ShadowQueueInvariants.DropBackgroundShrinks | addons/world_transvoxel/src/diagnostics/wt_gpu_meshing_shadow.cpp:95-126 | the first pass drops only requests the job outdates, none with a sibling in flight |
| ShadowQueueInvariants.DropForRoomShrinks | addons/world_transvoxel/src/diagnostics/wt_gpu_meshing_shadow.cpp:128-178 | the second pass drops only versions that give way under the rule in force, none with a sibling in flight |
| ShadowQueueProperties.WhoMayBeDropped | addons/world_transvoxel/src/diagnostics/wt_gpu_meshing_shadow.cpp:95-183 | in every mode, whatever leaves the queue was popped, outdated, or gave way to a reservation |
| ShadowQueueProperties.LosslessDropsOnlyTheOutdated | addons/world_transvoxel/src/diagnostics/wt_gpu_meshing_shadow.cpp:141-183 | in lossless mode a request leaves unpopped only for a job with a newer source revision, or the same key at a newer version, and never with a sibling in flight |
| ShadowQueueProperties.InFlightIsNeverRevoked | addons/world_transvoxel/src/diagnostics/wt_gpu_meshing_shadow.cpp:363-635 | in-flight work leaves only by being resolved under its own identity, or on restart |
| ShadowQueueReservations.GrantedReservationIsHonoured | addons/world_transvoxel/src/diagnostics/wt_gpu_meshing_shadow.cpp:184-257 | a granted reservation admits exactly its number of matching captures, whatever other calls come between |
| ShadowQueueResolutions.ResolvingEndsARequest | addons/world_transvoxel/src/diagnostics/wt_gpu_meshing_shadow.cpp:505-635 | an answer other than unknown is given exactly for a request in flight and ends it |
| ShadowQueueVerdicts.CompletionAnswers | addons/world_transvoxel/src/diagnostics/wt_gpu_meshing_shadow.cpp:505-554 | a comparison is answered Wrong identity, Stale, Matched or Mismatched: the last two exactly for the identity held, an enabled queue, current revisions and no newer request of its key, and then as the comparison came out |
| ShadowQueueVerdicts.ValidationAnswers | addons/world_transvoxel/src/diagnostics/wt_gpu_meshing_shadow.cpp:556-598 | likewise when a resident result is called ready |
| ShadowQueueVerdicts.RejectionAnswers | addons/world_transvoxel/src/diagnostics/wt_gpu_meshing_shadow.cpp:600-635 | and when it is rejected |
| ShadowQueueVerdicts.OneCounterRises | addons/world_transvoxel/src/diagnostics/wt_gpu_meshing_shadow.cpp:505-635 | exactly the counter of the answer given rises, by one |
| ShadowQueueVerdicts.UnknownIsCounted | addons/world_transvoxel/src/diagnostics/wt_gpu_meshing_shadow.cpp:505-520 | a request not in flight is unknown; only that is counted |
| ShadowQueueVerdicts.ResolvedLeavesFlight | addons/world_transvoxel/src/diagnostics/wt_gpu_meshing_shadow.cpp:505-635 | a request in flight leaves it whatever it is told, and all other requests and reservations stay |
| ShadowQueueResolutions.ResolvedAtMostOnce | addons/world_transvoxel/src/diagnostics/wt_gpu_meshing_shadow.cpp:505-635 | between two starts each request is resolved at most once |
| ShadowQueueResolutions.GoneIsForGood | addons/world_transvoxel/src/diagnostics/wt_gpu_meshing_shadow.cpp:194-427 | an identity that is gone never comes back until the next start |
| ShadowQueueProperties.PopTakesTheMostUrgent | addons/world_transvoxel/src/diagnostics/wt_gpu_meshing_shadow.cpp:363-427 | what is popped is lexicographically maximal by source revision, world revision and priority among the eligible; outdated requests for its key do not stay |
| ShadowQueueProperties.SelectionIsUrgent | addons/world_transvoxel/src/diagnostics/wt_gpu_meshing_shadow.cpp:369-377 | and no eligible request behind the selected one precedes it |
| ShadowQueueProperties.TiesDependOnArrangement | addons/world_transvoxel/src/diagnostics/wt_gpu_meshing_shadow.cpp:739-756 | the tie-breaking comparison can be cyclic, and then the request popped depends on the arrangement |
| ShadowQueueProperties.PickIsIndependentExactly | addons/world_transvoxel/src/diagnostics/wt_gpu_meshing_shadow.cpp:739-756 | the pick is the same for every arrangement of the queue exactly when nothing is eligible or one eligible request precedes all the others |
| ShadowQueueAnswers.CaptureIsRefusedOnlyWhenSaturated | addons/world_transvoxel/src/diagnostics/wt_gpu_meshing_shadow.cpp:277-361 | when a capture is admitted, exactly; saturation is counted and changes nothing else |
| ShadowQueueAnswers.ReservationIsRefusedOnlyWhenStuck | addons/world_transvoxel/src/diagnostics/wt_gpu_meshing_shadow.cpp:73-192 | a running queue refuses a reservation only at the class limit or when nothing more may be dropped; with room it grants at once |
| ShadowQueueAnswers.ReservationIsGrantedExactly | addons/world_transvoxel/src/diagnostics/wt_gpu_meshing_shadow.cpp:73-192 | a running queue grants exactly when the job is within its class limit once its class made room, and everything the job may drop would leave room for its slots |
| ShadowQueueAnswers.RefusalDropsNothingExactly | addons/world_transvoxel/src/diagnostics/wt_gpu_meshing_shadow.cpp:73-192 | told before the call: a refused reservation has dropped nothing exactly when its job was over its class limit with no outdated background version queued, or within it and stuck from the start |
| ShadowQueueAnswers.AcceptedWorkIsKnown | addons/world_transvoxel/src/diagnostics/wt_gpu_meshing_shadow.cpp:440-457 | an admitted capture's version and a granted reservation's are known to the queue from then on |
| ShadowQueueAnswers.BackgroundDroppingEnds | addons/world_transvoxel/src/diagnostics/wt_gpu_meshing_shadow.cpp:100-122 | the first pass ends with enough dropped or no droppable request left |
| ShadowQueueDrops.SupersessionIsByVersion | addons/world_transvoxel/src/diagnostics/wt_gpu_meshing_shadow.cpp:685-737 | what gives way to what: a newer source revision, or within one a later version of the key; outside lossless mode also to a higher priority of another key |
| ShadowQueueDrops.SupersessionIsAStrictOrder | addons/world_transvoxel/src/diagnostics/wt_gpu_meshing_shadow.cpp:697-737 | no version supersedes itself or is superseded in a circle |
| ShadowQueueDrops.ReservationDropsTheCheapest | addons/world_transvoxel/src/diagnostics/wt_gpu_meshing_shadow.cpp:128-178 | a request that leaves for a reservation was outdated by its job or had a sibling of lower priority, or as old in the same, than every request that stays and is not in flight |
| ShadowQueueClasses.OccupancyIsHeld | addons/world_transvoxel/src/diagnostics/wt_gpu_meshing_shadow.cpp:472-503 | what counts against the bounds: requests that are no incremental edits and slots not reserved by edits, for ordinary work without the player-visible ones |
| ShadowQueueClasses.CaptureIsAdmittedExactly | addons/world_transvoxel/src/diagnostics/wt_gpu_meshing_shadow.cpp:277-361 | when a capture is admitted, by the numbers: with sixteen places ordinary work may hold eight, player-visible and ordinary work together twelve |
| ShadowQueueClasses.GrantStaysInItsClass | addons/world_transvoxel/src/diagnostics/wt_gpu_meshing_shadow.cpp:73-192 | a granted reservation leaves its own class within its bound |
| ShadowQueueClasses.CaptureTakesAnEditPlace | addons/world_transvoxel/src/diagnostics/wt_gpu_meshing_shadow.cpp:277-361 | a capture makes other work exceed twelve exactly when it is ordinary, that work holds twelve, ordinary work less than eight of them, and it finds room or replaces an edit |
| ShadowQueueClasses.ReservationTakesAnEditPlace | addons/world_transvoxel/src/diagnostics/wt_gpu_meshing_shadow.cpp:73-192 | likewise a reservation within its class that finds room: exactly when its job is ordinary and other work holds more than ten |
| ShadowQueueClasses.EditsAreLockedOut | addons/world_transvoxel/src/diagnostics/wt_gpu_meshing_shadow.cpp:73-361 | after any start, twelve player-visible captures and four ordinary ones are all admitted; the capture of an edit elsewhere is then refused, and in lossless mode its reservation |
| ShadowQueueClasses.WorkersGetTheirWork | addons/world_transvoxel/src/diagnostics/wt_gpu_meshing_shadow.cpp:363-379 | a worker for interaction is given edits and player-visible work only, and a worker gets nothing exactly when nothing it may take is queued |
| ShadowQueueLedger.EveryReachableLedgerBalances | addons/world_transvoxel/src/diagnostics/wt_gpu_meshing_shadow.cpp:15-361 | after any calls every attempt to reserve was granted or rejected, every slot granted since the start is reserved, used or released, and captures are of the stage of the queue |
| ShadowQueueLedger.ReserveIsCounted | addons/world_transvoxel/src/diagnostics/wt_gpu_meshing_shadow.cpp:73-192 | a reservation counts the attempt, the requests it cost, and either its rejection or its slots; nothing else changes |
| ShadowQueueLedger.ReleaseIsCounted | addons/world_transvoxel/src/diagnostics/wt_gpu_meshing_shadow.cpp:259-275 | a release ends one reservation and returns exactly the slots it had left |
| ShadowQueueLedger.CaptureIsCounted | addons/world_transvoxel/src/diagnostics/wt_gpu_meshing_shadow.cpp:277-361 | an admitted capture is counted by its stage, by a mesh left out and by who lost a place; one refused for saturation is counted, any other changes nothing |
| ShadowQueueLedger.ReservedCaptureIsCounted | addons/world_transvoxel/src/diagnostics/wt_gpu_meshing_shadow.cpp:194-257 | likewise a capture on a reservation, which spends a slot; any that is not admitted is a failure and changes nothing else |
| ShadowQueueLedger.PopIsCounted | addons/world_transvoxel/src/diagnostics/wt_gpu_meshing_shadow.cpp:363-427 | taking another request than the first counts as urgent, and the requests that left with it as coalesced |
| ShadowQueueModes.UnrelatedWorkIsKeptExactlyInLosslessMode | addons/world_transvoxel/src/diagnostics/wt_gpu_meshing_shadow.cpp:141-183 | over all reachable queues, reservations never cost unrelated work its place if and only if the mode is lossless |
| ShadowQueueModes.RefusalMayHaveDroppedWork | addons/world_transvoxel/src/diagnostics/wt_gpu_meshing_shadow.cpp:128-187 | a reservation refused for its second slot has already dropped an outdated request |
| ShadowQueueModes.PagesAreStrippedUnlessTheClassIsFull | addons/world_transvoxel/src/diagnostics/wt_gpu_meshing_shadow.cpp:292-328 | without publication authority a capture is stored without pages exactly when its class was not full |
| GpuMeshingShadow.ShadowQueue.ReserveCaptureSlots | addons/world_transvoxel/src/diagnostics/wt_gpu_meshing_shadow.cpp:73-192 | both dropping passes, the class limit and the grant: new state and identity are exactly those of the step the invariants and the reservation promises are about |
| GpuMeshingShadow.ShadowQueue.DropVersionsForRoom | addons/world_transvoxel/src/diagnostics/wt_gpu_meshing_shadow.cpp:131-178 | the loop that repeatedly erases the cheapest superseded version leaves exactly the specified queue |
| GpuMeshingShadow.ShadowQueue.ClassOccupancy | addons/world_transvoxel/src/diagnostics/wt_gpu_meshing_shadow.cpp:472-503 | the counting loops compute the class occupancy |
| GpuMeshingShadow.ShadowQueue.HasJobVersion | addons/world_transvoxel/src/diagnostics/wt_gpu_meshing_shadow.cpp:440-457 | finds exactly the versions waiting, in flight or reserved |
| GpuMeshingShadow.ShadowQueue.CaptureReserved | addons/world_transvoxel/src/diagnostics/wt_gpu_meshing_shadow.cpp:194-257 | spends one slot and admits the capture, or fails and only counts: exactly the step that honours reservations |
| GpuMeshingShadow.ShadowQueue.ReleaseCaptureSlots | addons/world_transvoxel/src/diagnostics/wt_gpu_meshing_shadow.cpp:259-275 | exactly the slots left return |
| GpuMeshingShadow.ShadowQueue.Capture | addons/world_transvoxel/src/diagnostics/wt_gpu_meshing_shadow.cpp:277-361 | joins the queue, replaces an older version of its key or is refused: exactly the step whose refusals are characterised above |
| GpuMeshingShadow.ShadowQueue.Pop | addons/world_transvoxel/src/diagnostics/wt_gpu_meshing_shadow.cpp:363-427 | moves the selected request in flight and coalesces: exactly the step shown to take a most urgent request |
| GpuMeshingShadow.ShadowQueue.Complete | addons/world_transvoxel/src/diagnostics/wt_gpu_meshing_shadow.cpp:505-554 | new state, status and returned request are those of the resolving step, so at most one completion per request |
| GpuMeshingShadow.ShadowQueue.ValidateResident | addons/world_transvoxel/src/diagnostics/wt_gpu_meshing_shadow.cpp:556-598 | likewise for resident validation |
| GpuMeshingShadow.ShadowQueue.RejectResident | addons/world_transvoxel/src/diagnostics/wt_gpu_meshing_shadow.cpp:600-635 | likewise for a rejection |
| GpuMeshingShadow.ShadowQueue.Begin | addons/world_transvoxel/src/diagnostics/wt_gpu_meshing_shadow.cpp:15-35 | restarts with a capacity of 1 to 16 and refuses any other |
| GpuMeshingShadow.ShadowQueue.End | addons/world_transvoxel/src/diagnostics/wt_gpu_meshing_shadow.cpp:37-54 | nothing is held afterwards |
| MeshTopology.Mesh.IncidentsAreEdges | addons/world_transvoxel/src/meshing/wt_chunk_mesh_finalize.cpp:165-178 | an edge's incidents belong to triangles that have the edge |
| MeshTopology.WoundMeansConsistent | addons/world_transvoxel/src/meshing/wt_chunk_mesh_finalize.cpp:249-303 | if every component is wound as its shared edges force it, a closed set is consistent exactly when it can be wound consistently at all |
| MeshTopology.WrittenEdgesAreOpposite | addons/world_transvoxel/src/meshing/wt_chunk_mesh_finalize.cpp:386-397 | in the triangles as written, a shared edge is walked once each way exactly when the turns are opposite there |
| MeshFinalize.CollectEdges | addons/world_transvoxel/src/meshing/wt_chunk_mesh_finalize.cpp:374-384 | the edge map lists every incident of every edge, in order |
| MeshFinalize.OrientToNormals | addons/world_transvoxel/src/meshing/wt_chunk_mesh_finalize.cpp:226-247 | a component is turned over as a whole exactly when its triangles, as written so far, add up to a clearly negative alignment; one that faces outward everywhere is left alone, one that faces inward everywhere is turned; afterwards, if turning a triangle over turns its alignment round, they do not |
| MeshFinalize.VisitEdge | addons/world_transvoxel/src/meshing/wt_chunk_mesh_finalize.cpp:267-293 | a new neighbour across a two-sided edge is wound as the edge forces it |
| MeshFinalize.Propagate | addons/world_transvoxel/src/meshing/wt_chunk_mesh_finalize.cpp:249-303 | breadth first from one triangle: exactly its connected component, each triangle once |
| MeshFinalize.OrientConsistentComponents | addons/world_transvoxel/src/meshing/wt_chunk_mesh_finalize.cpp:249-303 | the components split the triangles; each is closed, connected, wound as its edges force it, and as written does not add up to a clearly negative alignment; its first triangle is turned over only if that was needed |
| MeshFinalize.CompactVertices | addons/world_transvoxel/src/meshing/wt_chunk_mesh_finalize.cpp:305-324 | indices name the same vertices, in the same order, and every kept vertex is named |
| MeshFinalize.MeshBuffer.FinalizeDeformedTriangles | addons/world_transvoxel/src/meshing/wt_chunk_mesh_finalize.cpp:355-399 | sound triangles only, each kept or turned over, wound and, as written, facing outward, over the same vertices |
| MeshFinalize.KeptAreTheSoundTriples | addons/world_transvoxel/src/meshing/wt_chunk_mesh_finalize.cpp:355-372 | exactly the index triples in range that make a sound triangle are kept, each as it stands, in order |
| MeshFinalize.FlatAt | addons/world_transvoxel/src/meshing/wt_chunk_mesh_finalize.cpp:386-397 | each triangle is written as its three corners in order |
| MeshAlignment.TurningOverTurnsRound | addons/world_transvoxel/src/meshing/wt_chunk_mesh_finalize.cpp:179-224 | exchanging two corners turns the alignment of a triangle round |
| MeshAlignment.UprightTriangle | addons/world_transvoxel/src/meshing/wt_chunk_mesh_finalize.cpp:179-224 | on the ground plane with upright normals the alignment is positive exactly for corners that go round to the left |
| MeshAlignment.FinishedComponentsFaceOutward | addons/world_transvoxel/src/meshing/wt_chunk_mesh_finalize.cpp:226-247 | whatever positions and normals the vertices carry, no component of a finished mesh clearly faces inward |
| MeshFinalize.FinalWindingIsConsistent | addons/world_transvoxel/src/meshing/wt_chunk_mesh_finalize.cpp:355-399 | for any closed set of triangles the output winds it consistently exactly when that is possible, and then writes each proper shared edge once in each direction |
| DenseGrids.AxisIndexIsExact | addons/world_transvoxel/src/bake/wt_dense_grid_source.cpp:21-39 | a coordinate has an index exactly when it is that many spacings from the origin, within the dimension |
| DenseGrids.PlacesAreExact | addons/world_transvoxel/src/bake/wt_dense_grid_source.cpp:101-131 | a world point has a place exactly when it is that place's lattice point |
| DenseGrids.IndicesAreExact | addons/world_transvoxel/src/bake/wt_dense_grid_source.cpp:132-136 | places have indices inside the data and no two share one |
| DenseGrids.IndexSteps | addons/world_transvoxel/src/bake/wt_dense_grid_source.cpp:132-136 | the first place has index 0; one step in x adds 1, in y a row, in z a layer |
| DenseGrids.SamplesLieByRows | addons/world_transvoxel/src/bake/wt_dense_grid_source.cpp:101-144 | at a lattice point the density and material are read that are stored after the samples of all layers, rows and columns before it |
| DenseGrids.ProductFits | addons/world_transvoxel/src/bake/wt_dense_grid_source.cpp:10-19 | the division test accepts exactly the products that fit |
| DenseGrids.GridIsAcceptedExactly | addons/world_transvoxel/src/bake/wt_dense_grid_source.cpp:49-99 | data is accepted exactly for a grid with an extent, samples in the right number within the capacity, finite densities, and as many materials or none; the reason given for refusing it is true |
| DenseGrids.DenseGridSource.Initialize | addons/world_transvoxel/src/bake/wt_dense_grid_source.cpp:49-99 | which data is accepted, by the exact number of samples |
| CachedGrids.CacheIsTransparent | tools/native/wt_dense_file_grid_source.cpp:152-237 | every history of sample calls with successful reads is answered as the in-memory grid answers, whatever blocks collide |
| CachedGrids.CachedSampleIsDense | tools/native/wt_dense_file_grid_source.cpp:185-237 | one such call, which also keeps the cache coherent |
| CachedGrids.BlockLiesInFile | tools/native/wt_dense_file_grid_source.cpp:152-169 | every block read lies inside the checked file size |
| CachedGrids.FilesHoldTheSamples | tools/native/wt_dense_file_grid_source.cpp:92-150 | files of the checked sizes are the samples of the grid, four bytes a density and two a material, and nothing else |
| CachedGrids.SlotsFollowBlocks | tools/native/wt_dense_file_grid_source.cpp:185-237 | blocks of a row take the cache slots one after another and rows start a fixed number further on; the wrap-around of the hash never shows |
| FailedReads.FailedLoadPoisonsExactly | tools/native/wt_dense_file_grid_source.cpp:49-71 | a failed load leaves a slot right exactly when it was unused or the bytes that did arrive are those of the block it still names |
| FailedReads.SomeFailedLoadPoisons | tools/native/wt_dense_file_grid_source.cpp:152-183 | told from the files: some failing load breaks the slot exactly when it is in use and the two blocks differ where that load can overwrite |
| FailedReads.FailedReadIsServedLater | tools/native/wt_dense_file_grid_source.cpp:185-237 | after a colliding block fails to load, a later answer is right exactly when the bytes laid over its sample are its own; with the density laid whole it is the other block's density |
| DenseFileGrids.DenseFileGridSource.Initialize | tools/native/wt_dense_file_grid_source.cpp:92-150 | opens exactly files of the exact sizes, with every slot unused |
| DenseFileGrids.FilesOpenExactly | tools/native/wt_dense_file_grid_source.cpp:92-150 | files are opened exactly for a grid with an extent whose bytes can be counted, with four bytes a density and two a material; the reason given for refusing them is true |
| DenseFileGrids.DenseFileGridSource.LoadBlock | tools/native/wt_dense_file_grid_source.cpp:152-183 | every offset read lies inside the file, and what is left in the slot when a read falls short |
| DenseFileGrids.DenseFileGridSource.Sample | tools/native/wt_dense_file_grid_source.cpp:185-237 | answer and cache are those of the step shown to be transparent, whatever the reads do |
| CompactionPages.AxisCoordinateIsExact | addons/world_transvoxel/src/storage/wt_chunk_page.cpp:458-472 | a value has a lattice coordinate exactly when it is that many cells from the chunk's corner, negative differences included |
| CompactionPages.PlaceOnPageIsExact | addons/world_transvoxel/src/storage/wt_chunk_page.cpp:447-482 | a point is read from the one stored sample that lies there, or not at all |
| CompactionPages.RevisionCheckIsNeverTheReason | addons/world_transvoxel/src/bake/wt_snapshot_compactor.cpp:132-142 | a page starting at the journal's first revision is refused only by the replay itself |
| CompactionPages.ProbeIsComplete | addons/world_transvoxel/src/bake/wt_snapshot_compactor.cpp:43-82 | the 27 candidates answer exactly when some finest-level page that can be loaded stores a sample at the point |
| CompactionPages.ProbeOrderIsIrrelevant | addons/world_transvoxel/src/bake/wt_snapshot_compactor.cpp:43-82 | if the pages storing a sample there agree on it and no brush is tangent, every probe order gives that sample replayed |
| CompactionSources.CacheIsTransparent | addons/world_transvoxel/src/bake/wt_snapshot_compactor.cpp:106-162 | every history of lookups returns what decoding and replaying afresh would, and never more than 32 pages are held |
| CompactionSources.OnlyTheLeastRecentLeaves | addons/world_transvoxel/src/bake/wt_snapshot_compactor.cpp:145-155 | a page leaves only a full cache whose other pages were all asked for more recently |
| CompactionSources.CompactionLod0SampleSource.FindBakedPage | addons/world_transvoxel/src/bake/wt_snapshot_compactor.cpp:91-104 | the binary search finds the first page with the key |
| CompactionSources.CompactionLod0SampleSource.ReplayJournal | addons/world_transvoxel/src/bake/wt_snapshot_compactor.cpp:132-142 | the nested loops replay the journal's commands in order |
| CompactionSources.CompactionLod0SampleSource.FindOrLoadPage | addons/world_transvoxel/src/bake/wt_snapshot_compactor.cpp:106-162 | returns the page a fresh decode and replay would give, from the cache or by loading and evicting |
| CompactionSources.CompactionLod0SampleSource.Sample | addons/world_transvoxel/src/bake/wt_snapshot_compactor.cpp:43-82 | the triple loop answers as the probe does, whatever the cache holds |

## Left out

- Godot bindings, dictionaries, metrics export, signals, configuration accessors and scripts: interface code.
- The terrain front end (publication draining, staging, cohort activation): it rests on services outside this model.
- Threads, mutexes and notifier callbacks: each locked method is one atomic step, and notifications change no queue state.
- Transvoxel tables, vertex interpolation, deformation and normals: third-party tables and float geometry.
- The long double brush depths are uninterpreted, so nothing is said about brush shapes; of the smoothed maximum, rounded
  step by step, overflow is proved for all numbers and the value where no step rounds, not its accuracy elsewhere.
- Page encoding, manifests and procedural worlds: opening and decoding a page are given functions in `CompactionPages`, and
  `wt_compact_snapshot` itself (page order, manifest, audit hashes) is not modelled beyond its sample source.
- SHA-256: any function; nothing depends on collisions being hard to find.
- Record input and output: the container writer and reader are field lists with byte cursors; the patching of the header
  digest is the value it ends up with.
- Edit counters other than the page's: shadow queue identities and counters are unbounded, so their 64-bit wrap-around
  after 2^64 calls is not captured.
- Aliasing of journal and replacement during a load: both are separate objects, as in the program, and the swap exchanges
  all fields; the reserved vector capacities are not modelled.
- The hash function of the index's key set and the edge map: sets and maps stand for them.
- File offsets above 2^63 - 1, which reads refuse: such a refusal is one of the failing reads the model allows anywhere.
- Null data pointers, allocation failure and I/O errors other than the modelled read failures of the file grid.
- Query ordering of `wt_dirty_brick` masks and transition faces: easy members beside the brick maps.
