# Verified model of svod's scheduling, decoding, conversion and pooling cores

A Dafny model of the parts of svod whose correctness rests on an argument that spans functions, runs or inputs.

- **Lane scheduling and replay** (`Topology`, `Scheduler`, `LaneRuns`, `ProgramOrder`, `LinkedPlan`, `NullExecution`,
  `NativeQueues`, `NativeRuns`, `CommandPatch`, `PatchReadBack`, `KernargLayout`). A program of kernels and copies is partitioned over
  device lanes with waits derived from hazards, merged, and bound to timelines. Lanes are modelled as FIFO processes that
  interleave freely over a shared byte memory with arbitrary kernels: every complete interleaving computes the program and
  none deadlocks. The null executor replays it in order, and every run of the native queues up to the finalizer's store
  computes it too.
- **CTC decoding** (`CtcAlignments`, `BeamMasses`, `BeamPruning`, `BeamRuns`, `SuffixTree`, `BeamDecoder`,
  `GreedyDecoder`). The specification is the sum over all alignments that collapse to a labelling. The prefix beam search
  over a flat-table suffix tree is proved against it: exact when nothing is cut, never above it otherwise.
- **Transducer decoding** (`GreedyTransducer`, `TransducerLoops`, `LabelLooping`, `DeviceBlocks`,
  `LaneCosts`). Four loops with different call
  schedules give every lane the same transcript, with their call counts.
- **Narrow floats** (`FloatGrid`, `NarrowFloat`, `NarrowRounding`, `Fp8Rounding`, `NarrowConversion`, `NarrowCommit`). The
  bit manipulation is round-to-nearest, ties to even, for every finite double (section 4.3.1 of IEEE 754-2019), in
  binary16 and four FP8 formats.
- **Buffers** (`LruAllocator`, `BufferViews`): pooling with a ledger of what the backend has out, and aliasing views, seals and forks.
- **Program stages** (`ProgramStages`): the stage machine over arbitrary renderers and compilers, and the chain of identities.
- **Templates** (`CustomTemplate`, `TemplateText`): the strict validator, the formatter that trusts it, and what they make of
  templates written out piece by piece.
- **Canonical serialization order** (`CanonicalOrder`): the explicit-stack topological sort, the table made from it, and its checker.

Log-domain masses are exact non-negative reals: minus infinity is 0, log-add-exp is addition, adding logs is multiplication. A
log-domain threshold appears as the factor e^-threshold, and NaN or minus infinity as a cutoff nothing meets. Magnitudes of floats count units of 2^-1074.

Where code and documentation disagree, the code is modelled. A beam threshold that is negative or NaN drops the best
hypothesis although `arch/src/ctc.rs:240-243` says it is always retained (`BestSurvives` gives the exact condition,
`NegativeThresholdEmptiesBeam` and `NanThresholdEmptiesBeam` two inputs). A symbol cap of zero makes lockstep and
label-looping differ although `arch/src/rnnt.rs:500-506` calls them identical (`ZeroCap`, `ZeroCapExample`). And a view is
checked against its parent by a sum that wraps around in builds without overflow checks, `device/src/buffer.rs:254-258`, so
a view outside its parent can be granted (`WrappedViewIsGranted`; `ViewInside` and `ChainInsideExactly` give the exact
condition).

## Model

| member | source | states |
|---|---|---|
| `Topology.Commute` | device/src/hcq.rs:163-167 | two commands without a read/write overlap between them have the same effect in either order, on any memory and with any kernels |
| `Topology.HazardIsConflict` | device/src/hcq.rs:163-167 | between commands that name no empty resource, a hazard is exactly a byte that one of them writes and the other reads or writes |
| `ProgramOrder.ExpansionMatches` | device/src/hcq.rs:116-161 | running the expanded commands in order, staged copies in two legs through a private host stage, leaves the memory that running the operations one by one leaves, staging aside |
| `Scheduler.EveryCommandPlaced` | device/src/hcq.rs:116-161 | where a device accesses itself, every expanded command may access all it names besides the stage: the legs of a staged copy run on copy queue 0 of the device whose memory they move, everything else on the operation's own lane |
| `Scheduler.StagesApart` | device/src/hcq.rs:125-130 | stages of different operations are different memory, and each is as long as its copy, at least one byte |
| `Scheduler.DeriveRaw` | device/src/hcq.rs:168-203 | each command waits for exactly the other lanes it has a hazard with, at the logical value of its latest producer there |
| `Scheduler.MergeAdjacent` | device/src/hcq.rs:205-228 | adjacent submissions of one lane are joined while both limits allow and only then; waits still name exactly the needed producers |
| `Scheduler.RewriteWaits` | device/src/hcq.rs:229-253 | every wait is rewritten to the first boundary that is still published and covers the logical value |
| `Scheduler.ScheduleDeviceLanes` | device/src/hcq.rs:102-255 | for every operation list, limits and access relation: contiguous per-lane blocks in program order, greedily merged within the limits, whose waits name exactly the cross-lane dependencies at published values |
| `Scheduler.ScheduleUnique` | device/src/hcq.rs:102-255 | that description leaves no freedom: commands and limits determine the submissions, their commands, signals and waits |
| `Scheduler.SubmissionsPlaced` | device/src/hcq.rs:102-255 | every command of every scheduled submission is a command of one of the operations, run where that operation may run it |
| `Scheduler.EarlierProducer` | device/src/hcq.rs:229-253 | every rewritten wait equals the signal of a strictly earlier submission on another lane |
| `Scheduler.PublishDependency` | device/src/hcq.rs:205-253 | a hazardous cross-lane pair stays ordered after merging: the later submission waits for a value at least the earlier one publishes |
| `LaneRuns.Serializable` | device/src/hcq.rs:163-203 | any order of the commands that keeps hazardous pairs in order computes what program order computes |
| `LaneRuns.Reachable` | device/src/hcq.rs:102-255 | invariant of every run in which lanes are FIFO and waits block: phases, published signals, satisfied waits and the trace stay consistent |
| `LaneRuns.LanesMatchProgramOrder` | device/src/hcq.rs:102-255 | in every interleaving that completes, memory equals running the expanded commands one by one |
| `LaneRuns.NoDeadlock` | device/src/hcq.rs:102-255 | in every reachable state that is not complete some lane can step |
| `ProgramOrder.BoundedRuns` | device/src/hcq.rs:102-255 | no interleaving takes more than two actions per submission and one per command |
| `ProgramOrder.CanComplete` | device/src/hcq.rs:102-255 | every partial run extends to a complete one |
| `ProgramOrder.CopyThroughStage` | device/src/hcq.rs:119-146 | a copy through the stage changes the destination exactly as the direct copy does |
| `ProgramOrder.EveryInterleavingMatchesProgram` | device/src/hcq.rs:102-255 | final memory outside the staging ids equals the caller's program run operation by operation, staged copies counting as one copy |
| `LinkedPlan.PointsRepeat` | device/src/hcq.rs:257-301 | two reservations of one timeline get the same point if and only if they are a multiple of two rollovers apart |
| `LinkedPlan.EpochTimeline.Reserve` | device/src/hcq.rs:283-300 | from a timeline opened at any value, the k-th reservation is the k-th point of the sequence from there, and a generation change schedules the reset of the slot it moves to |
| `LinkedPlan.EpochTimeline.Current` | device/src/hcq.rs:279-289 | the last point handed out, or before the first the value just below the opening one |
| `LinkedPlan.EpochTimeline.TakeReset` | device/src/hcq.rs:302-304 | hands the pending reset over once |
| `LinkedPlan.FromLaneSubmissions` | device/src/hcq.rs:882-912 | accepts if and only if every wait is published by some submission, and binds each submission to the next point of its own lane's timeline |
| `LinkedPlan.ScheduleLinks` | device/src/hcq.rs:898-910 | scheduler output is never rejected |
| `LinkedPlan.NullHcq.SubmitWith` | device/src/hcq.rs:1458-1487 | commands run in order up to the first that stops; slots, clock and trace are those of exactly the commands that ran, each traced with its queue |
| `LinkedPlan.WhatPassed` | device/src/hcq.rs:1458-1487 | of the commands that ran, every wait had found at least its value stored by then, and every command was accepted by its callback |
| `LinkedPlan.SlotSet` | device/src/hcq.rs:1458-1487 | a slot holds what the last of the commands that sets it has put there |
| `LinkedPlan.NeverSetBlocks` | device/src/hcq.rs:1463-1473 | no wait for more than zero passes on a slot that nothing has set |
| `NullExecution.Materialize` | device/src/hcq.rs:1032-1044 | none exactly if some value has no point; otherwise one wait per lane waited for, at bound points, the commands in order, then its own store |
| `NullExecution.ScheduleBound` | device/src/hcq.rs:1051-1053 | every value a linked schedule waits for or publishes has a point, so the expected submission is there |
| `NullExecution.LaterPointsGrow` | device/src/hcq.rs:257-301 | within two generations a lane's points never reuse a slot value |
| `NullExecution.StopsAtRejection` | device/src/hcq.rs:1046-1062 | with waits met, a submission can only stop at a command its callback rejects |
| `NullExecution.ExecuteNull` | device/src/hcq.rs:1046-1062 | executing a linked schedule never meets an unsatisfied wait: commands run in program order, and it stops only at the first rejecting callback |
| `NativeQueues.NativeSubmissions` | device/src/hcq.rs:931-1030 | refuses exactly merged plans, several devices, or a wait without a producer, which it names; otherwise emits the per-lane packets, one wait per awaited submission, and the finalizer |
| `NativeQueues.QueuesReachable` | device/src/hcq.rs:966-1030 | invariant of every interleaving of the native queues: FIFO progress, and slots stored exactly by finished submissions |
| `NativeQueues.ScopeExact` | device/src/hcq.rs:968-975 | a lane's store is System-scoped if and only if another submission or the finalizer waits on it |
| `NativeQueues.FirstUseOpens` | device/src/hcq.rs:981-985 | the first submission of a lane makes caches coherent and waits for the previous epoch before all else, and no other submission of it waits for that epoch |
| `NativeQueues.FinalizerOpens` | device/src/hcq.rs:1006-1012 | so does the finalizer, on compute queue 0, where no submission of that queue has |
| `NativeQueues.WaitsForPublishers` | device/src/hcq.rs:986-990 | a scheduled submission waits for exactly the submissions that publish the values it waits for |
| `NativeQueues.FinalizerWaitsForLast` | device/src/hcq.rs:1013-1024 | the finalizer waits for exactly the last submission of every other lane |
| `NativeQueues.BarrierAfterWaits` | device/src/hcq.rs:991-996 | between its waits for others and its dispatch a submission makes caches coherent |
| `NativeQueues.FinalizerIsLast` | device/src/hcq.rs:1006-1028 | in every interleaving the finalizer's store happens after every operation has run |
| `NativeQueues.NativeNoDeadlock` | device/src/hcq.rs:931-1030 | in every run of the native queues of a schedule, while something is unfinished, the previous epoch's signal or a submission can step; after that signal, a submission can |
| `NativeQueues.NativeKeepsDependencies` | device/src/hcq.rs:979-1004 | a dependent operation is dispatched only after the submission it depends on has finished |
| `NativeRuns.DispatchedExactly` | device/src/hcq.rs:993-1004 | in every run an operation has been dispatched exactly when at most its store is left |
| `NativeRuns.NothingBeforeEpoch` | device/src/hcq.rs:981-1012 | in every run, as long as the previous epoch's slot is not stored, nothing has been dispatched and the finalizer has stored nothing |
| `NativeRuns.DispatchOrdered` | device/src/hcq.rs:931-1030 | in every run each operation is dispatched at most once, and never before an earlier one it conflicts with |
| `NativeRuns.NativeQueuesMatchProgram` | device/src/hcq.rs:931-1030 | every run of the native queues that reaches the finalizer's store has left the memory the caller's program leaves, staging aside |
| `NativeRuns.LegsOfOne` | device/src/hcq.rs:116-161 | two commands of one operation are the legs of a staged copy, next to each other, the second depending on the first |
| `NativeRuns.IdsNameCommands` | device/src/hcq.rs:993-1004 | so the operation ids in the dispatched packets, which do not hold the leg, tell in every run which command each packet is |
| `NativeRuns.NativePacketsMatchProgram` | device/src/hcq.rs:931-1030 | with distinct operation ids, an executor that sees only the packets computes the caller's program |
| `NativeRuns.ScheduleLowers` | device/src/hcq.rs:934-945 | a schedule can be lowered if and only if it is for one device and unmerged, and a merge limit of one leaves every schedule unmerged |
| `ByteCodec.LeRoundTrip` | device/src/hcq.rs:1249-1249 | little-endian bytes read back as the value modulo the range of their width |
| `CommandPatch.ApplySites` | device/src/hcq.rs:1212-1252 | sites are encoded and written in order; it fails if and only if some value is missing, does not fit, or lies outside the buffer, and then stops at the first such site |
| `CommandPatch.SiteReadsBack` | device/src/hcq.rs:1219-1250 | after success a site that no later site overlaps reads back as its encoding |
| `PatchReadBack.SiteHolds` | device/src/hcq.rs:1217-1250 | read back as little-endian numbers, 16-, 32- and 64-bit sites hold the 64-bit sum of source and addend, low and high halves its halves |
| `PatchReadBack.HalvesHoldValue` | device/src/hcq.rs:1235-1236 | a low half and the high half next to it read back together as that sum |
| `PatchReadBack.ShiftedHalvesHoldQuotient` | device/src/hcq.rs:1238-1239 | two shifted halves read back together as that sum divided by the power of two |
| `PatchReadBack.OrHoldsBits` | device/src/hcq.rs:1237-1237 | a high half combined with given bits holds its own bits and those, and no others |
| `PatchReadBack.LinkedAddress` | device/src/hcq.rs:715-729 | after linking, a 64-bit site holds the address of its own slot plus its addend |
| `PatchReadBack.PatchedBuffer` | device/src/hcq.rs:747-769 | after a patch, a 64-bit buffer site holds the address of its own buffer plus its addend |
| `PatchReadBack.PatchedVariable` | device/src/hcq.rs:747-769 | and a 32-bit variable site holds its variable in two's complement |
| `CommandPatch.OverwrittenForgotten` | device/src/hcq.rs:1212-1252 | where all sites apply, the result does not depend on the bytes they overwrite, even with overlapping sites |
| `CommandPatch.Link` | device/src/hcq.rs:715-729 | linking applies the link sites to a copy and keeps the other partitions |
| `CommandPatch.Patch` | device/src/hcq.rs:747-769 | a patch succeeds if and only if the buffer has the linked length and all sites apply; its bytes are determined even when it fails part way |
| `CommandPatch.StaticBytesStay` | device/src/hcq.rs:747-769 | bytes outside all sites keep their linked value through any history of successful and failed patches |
| `CommandPatch.HistoryForgotten` | device/src/hcq.rs:743-769 | after any history, a successful patch leaves what it leaves in a fresh replay buffer |
| `KernargLayout.PackedSize` | device/src/hcq.rs:1269-1276 | the packed size is the cursor after the last field |
| `KernargLayout.FieldsDisjoint` | device/src/hcq.rs:1335-1348 | fields are aligned to their width, disjoint, in order, and inside the packed size |
| `KernargLayout.Pack` | device/src/hcq.rs:1316-1351 | rejects count mismatches and short destinations untouched; otherwise every field holds its value, padding is zero, bytes past the packed size are unchanged |
| `KernargLayout.FieldReadsBack` | device/src/hcq.rs:1335-1348 | reading a field back gives its global, or its variable modulo 2^32, for every storage order |
| `KernargLayout.GlobalReadsBack` | device/src/hcq.rs:1335-1341 | the eight bytes of a storage field are its address |
| `KernargLayout.VariableReadsBack` | device/src/hcq.rs:1342-1348 | the four bytes of a scalar field are its variable in two's complement |
| `KernargLayout.FieldIsNext` | device/src/hcq.rs:1269-1276 | each field begins at the first multiple of its own width after the field before it |
| `CtcAlignments.PathSumStep` | arch/src/ctc.rs:424-452 | the sum over all (V+1)^n alignments that collapse to a labelling obeys the prefix recurrence the beam loop uses |
| `CtcAlignments.PathSumStart` | arch/src/ctc.rs:398-399 | before the first frame all mass is on the empty labelling's blank path |
| `CtcAlignments.LabelStep` | arch/src/ctc.rs:433-450 | one more label turns an alignment into labelling y exactly by repeating the last label or by adding it |
| `BeamMasses.SpreadBlank` | arch/src/ctc.rs:430-432 | extending all hypotheses by the tokens puts on "y, ending in blank" its total mass times the blank's |
| `BeamMasses.SpreadLabel` | arch/src/ctc.rs:433-450 | and on "y, ending in its last label" what reaches it by that label, or nothing if the label was cut |
| `BeamMasses.SpreadExact` | arch/src/ctc.rs:424-452 | with all tokens, exact masses stay exact over a frame |
| `BeamMasses.SpreadWithin` | arch/src/ctc.rs:424-452 | with any tokens, masses stay within the alignment sums |
| `BeamMasses.BestOfExact` | arch/src/ctc.rs:499-499 | where masses are exact, the front of the ranked list is a labelling of maximal total probability |
| `BeamMasses.HeldPermuted` | arch/src/ctc.rs:461-461 | sorting changes no hypothesis' mass |
| `BeamPruning.MergeSameNodes` | arch/src/ctc.rs:456-480 | the in-place sweep keeps every node's blank and non-blank mass and leaves one entry per node |
| `BeamPruning.TopKTokens` | arch/src/ctc.rs:769-796 | distinct tokens with the blank always among them; all of them, just the blank, or k labels no other beats |
| `BeamPruning.PrunedIsPrefix` | arch/src/ctc.rs:482-492 | pruning keeps a front of the ranked list, all of it when no limit bites |
| `BeamPruning.PrunedExactly` | arch/src/ctc.rs:486-492 | of the ranked hypotheses exactly those among the first beamSize survive whose mass is at least the best one's times the factor |
| `BeamPruning.PrunedHolds` | arch/src/ctc.rs:482-492 | pruning never adds mass |
| `BeamPruning.BestSurvives` | arch/src/ctc.rs:486-491 | the best hypothesis survives if and only if there is no threshold, or it is at least zero, or it is finite and the best mass is zero; the documentation promises it always |
| `BeamPruning.NegativeThresholdEmptiesBeam` | arch/src/ctc.rs:486-491 | an input that shows it: one hypothesis of mass one and a negative threshold leave nothing |
| `BeamPruning.NanThresholdEmptiesBeam` | arch/src/ctc.rs:486-491 | another: a NaN threshold, which is not negative, leaves nothing of any beam |
| `SuffixTrees.PathsDiffer` | arch/src/ctc.rs:625-640 | nodes and labellings correspond one to one |
| `SuffixTrees.FramesIncrease` | arch/src/ctc.rs:684-706 | along a path frames strictly increase, one per label |
| `SuffixTrees.SuffixTree.Reset` | arch/src/ctc.rs:643-649 | an empty tree over the new alphabet |
| `SuffixTrees.SuffixTree.TipOf` | arch/src/ctc.rs:651-653 | the last label of the node's labelling, none for the root |
| `SuffixTrees.SuffixTree.GetChild` | arch/src/ctc.rs:655-664 | finds the node of the longer labelling, and none only if no node stands for it |
| `SuffixTrees.SuffixTree.AddNode` | arch/src/ctc.rs:666-682 | adds exactly that labelling, keeping the flat child table consistent |
| `SuffixTrees.SuffixTree.Walk` | arch/src/ctc.rs:684-706 | the walk to the root, reversed, gives the labelling and its frames |
| `BeamSearch.LiftAtMost` | arch/src/ctc.rs:625-640 | masses by node and masses by labelling say the same |
| `BeamRuns.RankedCount` | arch/src/ctc.rs:424-480 | a frame leaves at most V+1 times as many hypotheses as came in |
| `BeamRuns.FrameExact` | arch/src/ctc.rs:405-493 | an uncut frame, with sorting and merging, keeps masses exact |
| `BeamRuns.FrameWithin` | arch/src/ctc.rs:405-493 | any frame, with pruning, keeps masses within the alignment sums |
| `BeamRuns.RunWithin` | arch/src/ctc.rs:405-493 | so does every run of frames, whatever was cut |
| `BeamRuns.RunExact` | arch/src/ctc.rs:405-493 | a run in which nothing was cut has exactly the alignment sums |
| `BeamRuns.KeepsAllIsUncut` | arch/src/ctc.rs:482-492 | with all tokens, no threshold and room for every alignment, nothing is ever cut |
| `BeamRuns.RunKeepsOne` | arch/src/ctc.rs:486-491 | a threshold of at least zero never empties the beam |
| `BeamRuns.FrontIsMostLikely` | arch/src/ctc.rs:495-500 | after an uncut run the front of the beam is a labelling of maximal total probability |
| `BeamSearch.LiftSame` | arch/src/ctc.rs:454-480 | equal masses by node are equal masses by labelling |
| `BeamSearch.PrunedLifted` | arch/src/ctc.rs:482-492 | pruning by node and pruning by labelling drop the same hypotheses |
| `BeamSearch.BeamDecoder.Extend` | arch/src/ctc.rs:428-451 | the tree code makes of one hypothesis and token exactly what the recurrence on labellings says |
| `BeamSearch.BeamDecoder.Settle` | arch/src/ctc.rs:454-485 | after sorting, merging and ranking: same masses, one entry per node, descending totals |
| `BeamSearch.BeamDecoder.Advance` | arch/src/ctc.rs:422-493 | one frame of the code is one frame of the search over labellings, and the run so far is kept on record |
| `BeamSearch.BeamDecoder.Search` | arch/src/ctc.rs:395-493 | the frame loop over kept frames; NaN frames are skipped or reported, the first one |
| `BeamSearch.BeamDecoder.DecodeToBestNode` | arch/src/ctc.rs:376-500 | fails exactly on a NaN in strict mode, and names the first such frame; otherwise the node returned is the front of the beam that a run over all kept frames left |
| `BeamSearch.BeamDecoder.BeamWithinSums` | arch/src/ctc.rs:376-500 | for any options that beam has one ranked entry per labelling, none above its alignment sum, and at least one if there is no threshold or it is at least zero |
| `BeamSearch.BeamDecoder.BestIsMostLikely` | arch/src/ctc.rs:376-500 | whenever the run cut no token and no hypothesis, and so for all options that cut nothing, the decoded labelling is a most likely one |
| `BeamSearch.BeamDecoder.DecodeWithTimestamps` | arch/src/ctc.rs:347-355 | the same failures; otherwise the text spells the labelling of the decoded node, and the frames are that node's |
| `BeamSearch.BeamDecoder.TimestampsIncrease` | arch/src/ctc.rs:684-706 | those frames strictly increase, lie below the frame count, and there is one per label, in every run |
| `BeamSearch.BeamDecoder.StampMeaning` | arch/src/ctc.rs:405-452 | a label is stamped with the first kept frame whose hypotheses, before pruning, include the labelling up to it; the label was among that frame's tokens, and the labelling before it in the beam |
| `BeamSearch.KeptEntry` | arch/src/ctc.rs:405-421 | the frames searched are the rows of the input without a NaN, in order, each with its own numbers |
| `BeamSearch.SpellsInOrder` | arch/src/ctc.rs:347-355 | the text of a labelling extended is its text followed by that of the extension |
| `GreedyDecoding.ArgmaxNanSafe` | arch/src/ctc.rs:737-756 | the first label no other beats, NaN ranking last |
| `GreedyDecoding.BestMeans` | arch/src/ctc.rs:737-756 | that is the first label of the largest mass, or label 0 where all is NaN |
| `GreedyDecoding.ArgmaxPerFrame` | arch/src/ctc.rs:208-219 | the best label of every frame |
| `GreedyDecoding.CollapseRun` | arch/src/ctc.rs:136-153 | one run of labels, continuing a stream |
| `GreedyDecoding.EmittedExactly` | arch/src/ctc.rs:136-153 | a frame emits its label exactly if that is no blank and differs from the label of the frame before |
| `GreedyDecoding.RunsConcatenate` | arch/src/ctc.rs:136-153 | decoding a stream run by run gives what decoding it whole gives |
| `GreedyDecoding.EmittedIsCollapse` | arch/src/ctc.rs:136-153 | the emitted labels are the collapse of the alignment, at increasing frames |
| `GreedyDecoding.DecodeInner` | arch/src/ctc.rs:155-192 | decoding emits the collapse of the best label of every frame |
| `GreedyDecoding.DecodeWithTimestamps` | arch/src/ctc.rs:155-192 | the text spells the emitted labels and the frames are theirs |
| `GreedyDecoding.GreedyDecodesBestAlignment` | arch/src/ctc.rs:155-192 | without NaN, greedy decoding reads off the labelling of the single likeliest alignment |
| `GreedyTransducer.AfterFinishes` | arch/src/rnnt.rs:391-434 | however far a lane has run, finishing it gives the same transcript, after the joint evaluations it has left |
| `GreedyTransducer.StepShrinks` | arch/src/rnnt.rs:534-575 | (valid - time) * max_symbols - symbols strictly decreases |
| `GreedyTransducer.GreedyWithinCap` | arch/src/rnnt.rs:416-431 | tokens come in frame order, below the lane's frames, at most max_symbols per frame |
| `GreedyTransducer.TranscriptMeaning` | arch/src/rnnt.rs:391-434 | the text is the vocabulary entries of the emitted tokens in order; each token is what the joint picks at its frame after the tokens before it; each frame ends with a blank or at the cap |
| `GreedyTransducer.GreedyUnique` | arch/src/rnnt.rs:391-434 | that determines the emissions |
| `GreedyTransducer.TranscriptGrows` | arch/src/rnnt.rs:391-434 | the text and the emissions after some evaluations are a prefix of those after more |
| `TransducerLoops.DecodeInner` | arch/src/rnnt.rs:391-434 | the sequential loop gives the greedy transcript, and nothing for a cap of zero, after exactly the joint evaluations the lane needs |
| `TransducerLoops.AbsorbRound` | arch/src/rnnt.rs:473-488 | what one lockstep round leaves of every lane |
| `TransducerLoops.DecodeBatch` | arch/src/rnnt.rs:442-498 | every lane gets exactly its greedy transcript, whatever the other lanes do; each frame takes exactly as many steps as its slowest lane makes evaluations in it |
| `LaneCosts.LockstepCost` | arch/src/rnnt.rs:442-498 | those steps are at least what any lane takes alone, and exactly that for a batch of one |
| `LabelLooping.DecodeBatchLabels` | arch/src/rnnt.rs:507-578 | every lane gets exactly its greedy transcript; joint runs exactly the most rounds any lane needs, predict once plus once per emitting round |
| `LabelLooping.CompareSchedules` | arch/src/rnnt.rs:500-506 | run on one task, both batched loops give the same transcripts, and label-looping runs at most as many joints as lockstep runs steps |
| `LabelLooping.ZeroCap` | arch/src/rnnt.rs:516-516 | with a cap of zero the two batched loops agree if and only if every frame picks the blank from the initial state |
| `LabelLooping.ZeroCapExample` | arch/src/rnnt.rs:516-516 | a one-token network on which they disagree |
| `DeviceBlocks.WindowedIsDeviceStep` | arch/src/rnnt.rs:243-251 | a windowed step that jumps to the first token is a device step, for every window |
| `DeviceBlocks.TapeNotesRun` | arch/src/rnnt.rs:616-643 | noting a block's tape keeps every lane on course to its transcript |
| `DeviceBlocks.CutFinishes` | arch/src/rnnt.rs:628-634 | noting only the emissions below the host's own frame count is decoding with the smaller of the two counts |
| `DeviceBlocks.RunBlocks` | arch/src/rnnt.rs:616-643 | from any lane states, for every block size and any host and device frame counts, the noted transcripts are those of finishing the lanes at the smaller count |
| `DeviceBlocks.DecodeBatchBlocks` | arch/src/rnnt.rs:584-597 | block decoding gives every lane its greedy transcript |
| `DeviceBlocks.ResumeBatchBlocks` | arch/src/rnnt.rs:599-614 | a chunk continues every lane from its present state |
| `FloatGrid.GridOrder` | dtype/src/cast.rs:121-159 | codes and the numbers they stand for are in the same order |
| `FloatGrid.QuotientChooses` | dtype/src/cast.rs:97-114 | shifting a significand and rounding its remainder picks between the two neighbouring numbers |
| `FloatGrid.NearestMonotone` | dtype/src/cast.rs:61-118 | rounding to nearest, ties to even, is monotone and so unique |
| `FloatGrid.NearestOfGrid` | dtype/src/cast.rs:61-118 | a representable number rounds to itself |
| `NarrowRounding.HalfRoundsToNearest` | dtype/src/cast.rs:175-213 | for every finite double the binary16 code keeps the sign and is nearest, ties to even, on the grid extended by 65536 |
| `NarrowRounding.HalfOverflow` | dtype/src/cast.rs:195-199 | the result is infinite if and only if the magnitude is at least 65520 |
| `NarrowConversion.Fp8RoundsToNearest` | dtype/src/cast.rs:61-118 | for every finite double and all four FP8 formats the code is the nearest finite number, ties to even; zero loses its sign in the FNUZ formats |
| `NarrowConversion.HalfDecodes` | dtype/src/cast.rs:216-228 | every finite binary16 code decodes to its grid number |
| `NarrowConversion.Fp8Decodes` | dtype/src/cast.rs:121-159 | every finite FP8 code decodes to its grid number |
| `NarrowConversion.HalfMonotone` | dtype/src/cast.rs:175-213 | conversion to binary16 never reverses the order of two doubles, infinities included |
| `NarrowConversion.Fp8Monotone` | dtype/src/cast.rs:61-118 | nor does conversion to FP8, for any two results that are not NaN |
| `NarrowConversion.HalfReencodes` | dtype/src/cast.rs:175-228 | a double that holds a decoded binary16 value converts back to the same bits, infinities and signed zeros included |
| `NarrowConversion.Fp8Reencodes` | dtype/src/cast.rs:61-159 | a double that holds a decoded FP8 value converts back to the same byte |
| `NarrowConversion.HalfKeepsSpecials` | dtype/src/cast.rs:189-191 | infinities and NaN convert to binary16 and back unchanged, as the stated codes |
| `NarrowConversion.Fp8Specials` | dtype/src/cast.rs:64-78 | only E5M2 keeps infinities; elsewhere infinities and NaN become NaN; each as the stated byte |
| `NarrowCommit.HalfIsDouble` | dtype/src/cast.rs:216-228 | every decoded binary16 code is the value of a double, which is given |
| `NarrowCommit.Fp8IsDouble` | dtype/src/cast.rs:121-159 | so is every decoded FP8 code |
| `NarrowCommit.HalfRoundTrip` | dtype/src/cast.rs:175-228 | every binary16 code that is a number survives the way to a double and back |
| `NarrowCommit.Fp8RoundTrip` | dtype/src/cast.rs:61-159 | and every FP8 code |
| `NarrowCommit.HalfCommitIdempotent` | dtype/src/cast.rs:37-46 | committing any double to binary16 twice, NaN and infinities included, is committing it once |
| `NarrowCommit.Fp8CommitIdempotent` | dtype/src/cast.rs:37-55 | committing any double to an FP8 format twice is committing it once |
| `NarrowCommit.HalfCommitMonotone` | dtype/src/cast.rs:37-46 | committing to binary16 never reverses an order |
| `NarrowCommit.Fp8CommitMonotone` | dtype/src/cast.rs:37-55 | nor does committing to any FP8 format, as far as both results are numbers |
| `NarrowCommit.Fp8CommitNan` | dtype/src/cast.rs:37-78 | which they are except for NaN, and for infinities outside E5M2 |
| `LruPool.PopLedger` | device/src/allocator.rs:592-606 | popping moves a buffer from pooled to held and breaks no pool |
| `LruPool.PushLedger` | device/src/allocator.rs:660-669 | pooling moves it back |
| `LruPool.LruAllocator.FreeCache` | device/src/allocator.rs:508-518 | every pooled buffer goes back to the backend, once; only held ones stay out |
| `LruPool.LruAllocator.Recycle` | device/src/allocator.rs:608-637 | a recycled buffer is fenced and zeroed, or replaced when it cannot be zeroed; it fails exactly when the fence, the zeroing or the replacement fails, and then the buffer went back to the backend |
| `LruPool.LruAllocator.Miss` | device/src/allocator.rs:640-647 | fails exactly when the backend refuses both before and after the pools were emptied; the first error is reported |
| `LruPool.LruAllocator.Alloc` | device/src/allocator.rs:586-648 | the granted buffer is new to the caller, of the requested size and spec, zeroed if asked; every buffer the backend has out is held or pooled, never both; held bytes do not change; the pool is last in, first out; it fails exactly when recycling or the miss fails, with the first error |
| `LruPool.LruAllocator.Free` | device/src/allocator.rs:650-675 | the buffer is pooled if and only if pooling is allowed and there is room, otherwise released |
| `LruPool.LruAllocator.Drop` | device/src/allocator.rs:579-583 | after all callers have freed, backend allocations equal backend frees |
| `BufferViews.ViewInside` | device/src/buffer.rs:254-269 | a granted view stays inside its parent if and only if offset + size does not wrap around in machine words |
| `BufferViews.WrappedViewIsGranted` | device/src/buffer.rs:254-258 | an input that shows it: on eight bytes, four bytes at 2^64 - 4 are granted and lie outside the allocation |
| `BufferViews.ViewGranted` | device/src/buffer.rs:254-269 | a request that does not wrap is granted exactly if it ends inside the parent, one that wraps exactly if its wrapped end does; the view lies at the parent's offset plus its own |
| `BufferViews.ChainIsOneView` | device/src/buffer.rs:254-269 | any chain of views whose requests do not wrap equals one view at the summed offset, inside the first buffer |
| `BufferViews.ChainInside` | device/src/buffer.rs:254-269 | such a chain stays inside the base allocation and owns only bytes of the first buffer |
| `BufferViews.ChainInsideExactly` | device/src/buffer.rs:254-269 | every view of a granted chain stays inside its parent if and only if no request wraps |
| `BufferViews.CopyInAt` | device/src/buffer.rs:696-704 | writes exactly the given bytes at the place in the window, or fails on a seal, a failed allocation or a size, in that order, and changes no byte; bytes outside the window never change |
| `BufferViews.CopyIn` | device/src/buffer.rs:681-690 | replaces the window's contents, with the same refusals, and a refusal changes no byte |
| `BufferViews.CopyOut` | device/src/buffer.rs:706-718 | reads exactly the window, and changes nothing that was there; it fails exactly where allocation or the size does |
| `BufferViews.CopyRegionFrom` | device/src/buffer.rs:761-779 | writes exactly the region into the destination window; a sealed, misplaced or unallocatable one is refused and no byte changes |
| `BufferViews.CopyWithin` | device/src/buffer.rs:784-804 | moves a region inside the window, and refuses overlapping regions |
| `BufferViews.DisjointUnaffected` | device/src/buffer.rs:246-253 | a write through one view leaves every disjoint view's contents as they were |
| `BufferViews.WriteSeenThroughView` | device/src/buffer.rs:246-253 | a write through one view shows in every view that contains it, at the shifted place |
| `BufferViews.OverlapSeesWrite` | device/src/buffer.rs:246-253 | after any write through one view, any other view of the storage reads at every byte they share what was written there, or what was there before |
| `BufferViews.MarkImmutable` | device/src/buffer.rs:316-336 | seals the storage for every alias, for good |
| `BufferViews.PerformAll` | device/src/buffer.rs:316-336 | in every history of host calls, a write is refused for the seal exactly if its storage had been sealed, through whatever alias, and a sealed storage keeps its bytes |
| `BufferViews.ForkViews` | device/src/buffer.rs:271-312 | fails exactly on views of several storages or when contents are to be copied and the copy cannot be allocated; otherwise offsets, sizes, the overlap relation and, when asked, the contents are kept on fresh unsealed storage |
| `CustomTemplate.ValidateCustomTemplateStrict` | codegen/src/common.rs:150-218 | accepts if and only if the syntax is right, placeholders are all automatic or all numbered, and every index names an argument |
| `CustomTemplate.FormatCustomTemplateStrict` | codegen/src/common.rs:220-261 | accepted templates are formatted placeholder by placeholder; no index is out of bounds and no token fails to parse |
| `CustomTemplate.DoubledFormatsToItself` | codegen/src/common.rs:150-261 | any text with its braces doubled is accepted and formats to itself |
| `TemplateText.ParsesExactly` | codegen/src/common.rs:150-218 | a token is read as n exactly if it is n in decimal, behind at most one plus and any zeros, and n fits a machine word |
| `TemplateText.WrittenAccepted` | codegen/src/common.rs:150-218 | pieces written out as a template are accepted exactly if they use one kind of placeholder and each has an argument |
| `TemplateText.WrittenFormats` | codegen/src/common.rs:220-261 | and they format to their characters and arguments in order: the k-th automatic placeholder takes argument k, a numbered one the argument of its number |
| `ProgramStages.ValidateAbiDescriptors` | device/src/device.rs:578-668 | accepts if and only if every descriptor is sound, slots strictly ascend, scalar names differ, and the projections match |
| `ProgramStages.RouteOnlyGrows` | codegen/src/program_pipeline.rs:516-559 | on any sequence of targets, advancing fills in the missing stages up to the target, keeps the prefix shape, goes no further, and rewrites no stage |
| `ProgramStages.RouteSucceeds` | codegen/src/program_pipeline.rs:516-559 | a route succeeds exactly if every stage up to the furthest target is ready: supplied with the right identity, or reported by the renderer or compiler in agreement with the program |
| `ProgramStages.RouteMakesStages` | codegen/src/program_pipeline.rs:332-493 | a stage that was missing is the linearized sink, the renderer's code for that list, and the compiler's bytes for that code |
| `ProgramStages.AnyRoute` | codegen/src/program_pipeline.rs:516-559 | any sequence of targets, in any order and with repeats, is the furthest target at once: same success, same failure, same program |
| `ProgramStages.RouteHasChain` | codegen/src/program_pipeline.rs:332-493 | on any route to a binary the source names its linear list, signature, target and code, and the binary names that source, the compiler and the bytes |
| `ProgramStages.ChainNames` | codegen/src/program_pipeline.rs:332-493 | field by field, what the two identities of an unbroken chain name |
| `ProgramStages.RouteAcceptsIffChain` | codegen/src/program_pipeline.rs:405-493 | a program that comes with a binary is accepted exactly when that chain is unbroken and its parts are sound |
| `ProgramStages.CompileTrustsDigest` | device/src/device.rs:491-530 | compiling alone takes the digest of the linear list on trust; the chain holds afterwards if and only if that digest is right |
| `CanonicalOrder.CanonicalToposort` | scripts/tinygrad-canonical.py:262-279 | terminates; reports a cycle if and only if one is reachable, otherwise lists exactly the reachable nodes once each, dependencies first, in depth-first order: each node right after what its dependencies add, taken in their order |
| `CanonicalOrder.OrderedHasNoCycle` | scripts/tinygrad-canonical.py:262-279 | a dependency-first order of distinct nodes rules out cycles |
| `CanonicalOrder.ActiveMeansCycle` | scripts/tinygrad-canonical.py:275-275 | meeting an active node again means it reaches itself |
| `CanonicalOrder.CanonicalGraph` | scripts/tinygrad-canonical.py:282-301 | the table numbers the nodes by position and refers to dependencies by number |
| `CanonicalOrder.ValidateGraph` | scripts/canonical-diff.py:340-377 | accepts if and only if ids are distinct and dense, references exist and point to smaller ids, and roots exist; otherwise reports the first fault in that order |
| `CanonicalOrder.SerializedIsAccepted` | scripts/canonical-diff.py:372-377 | whatever the serializer writes, the checker accepts |
| `CanonicalOrder.AcceptedIsAcyclic` | scripts/canonical-diff.py:372-376 | whatever the checker accepts is acyclic, whoever wrote it |

## Left out

- Scheduler.ScheduleDeviceLanes: waits are a map from lane to value, so the order in which a submission's waits are listed is not stated; lane values are unbounded integers, not 64-bit.
- LaneRuns.LanesMatchProgramOrder: lanes interleave whole commands; kernels and copies are atomic on memory, and kernels are total functions of the bytes they declare.
- NullExecution.ExecuteNull: assumes each lane of the plan has two signal addresses of its own and at most two timeline generations in one plan, because points repeat after that (PointsRepeat); callbacks are pure functions of lane and command.
- LinkedPlan.NullHcq.SubmitWith: the contents of compute packets and the scope of a store, which the null executor ignores.
- NativeQueues.NativeSubmissions: slot bindings are abstract slot numbers; the order of a submission's waits is not stated.
- CommandPatch.ApplySites: shift amounts of 64 and more count modulo 64, as in builds without overflow checks; checked builds abort on them.
- NativeRuns.NativeQueuesMatchProgram: a dispatch runs the command of its submission (NativePacketsMatchProgram says when the packets alone tell which that is). A dispatched operation takes effect at once; caches between dispatch and store, which store scopes and barriers are for, are not modelled.
- BeamSearch.BeamDecoder.DecodeToBestNode: exact reals instead of 32-bit floats; passing NaN through is not modelled; node ids do not wrap at 2^31.
- BeamPruning.TopKTokens: the order inside the top k, which the library leaves open, is one of the possible ones; so are ties in rankings.
- GreedyDecoding.DecodeInner: the count of NaN frames that is printed.
- TransducerLoops.DecodeBatch: backends do not fail, so error returns are not modelled; the predictor and joint are deterministic functions per lane, and tokens never exceed the blank.
- DeviceBlocks.RunBlocks: asks for at least one step per block (with none the loop could not end) and a cap of at least one; the device kernel is represented by the contract on its tapes, under which a flagged entry is a real emission at one of the lane's frames.
- NarrowCommit.HalfCommitIdempotent: the sign of a NaN is not modelled; commits make NaN canonical first.
- NarrowCommit.Fp8CommitIdempotent: BFloat16 and Float32 commits are not modelled; BFloat16 rounds twice through 32-bit floats, so nearest rounding would be false of it.
- LruPool.LruAllocator.Alloc: one call at a time, the lock held around the map is not modelled; the backend's outcomes are an arbitrary function of its call number.
- CanonicalOrder.CanonicalGraph: only ids and references of a row are modelled, not its operation, type, shape constants and arguments.
- CanonicalOrder.ValidateGraph: field shape checks that do not concern ids, references or roots.
- Word grouping of transducer emissions, batch slicing of CTC inputs, and the enum that dispatches between CTC decoders: easy members.
- The promotion lattice and safe-cast tables of `dtype/src/cast.rs`: finite tables.
- BufferViews.CopyInAt: the host calls are stated for views inside their allocation; what a wrapped view reads or writes is not modelled. Allocation fails or succeeds once and for all per storage; concurrent first uses, device memory kinds and element types are not modelled.
- BufferViews.ForkViews: whole-buffer copies between different allocators are not modelled.
- CustomTemplate.ValidateCustomTemplateStrict: which of the refusals is reported.
- ProgramStages.AnyRoute: which error is reported; graph kinds are in the types; rendering, compiling, linearization, graph checks and digests are arbitrary functions that give the same answer every time.
- Numbering of parameters and launch expressions (`codegen/src/program_pipeline.rs:192-253`, `device/src/device.rs`): easy members.
- The CPU executor, profiling, placeholder packing, the link cache, and all device drivers and foreign calls.
