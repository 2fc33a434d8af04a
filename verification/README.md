# FZGPUModules host pipeline: a Dafny model

FZGPUModules compresses scientific data on a GPU with a DAG of stages. This project models the code
on the host that turns such a DAG into a level schedule, a memory plan, a fusion plan, a blob and a
decompression DAG, and proves what those plans are for. Stages are uninterpreted functions from input
values to output values; a stage is undone by its inverse mode. Run `dafny verify dfyconfig.toml`.

The central result is `EndToEnd.CompressThenDecompress`: for every DAG whose levels climb, every greedy
coloring and every set of linear fused groups on both sides, compressing, writing the blob, building
the inverse DAG and running it with the result redirected to the caller gives the caller the input
back, whatever the shared storage held before and however kernels of one level interleave.
`EndToEnd.DecompressKthBlob` carries it to the calls a user makes: the inverse DAG was cached for an
earlier blob, its inputs read device memory through remapped pointers, the input was padded, and the
bytes that are reported are the caller's.

## Modules

| file | models |
|---|---|
| Values, Arithmetic, Sums | bytes and results, quotients and remainders, sums over sets |
| Graph, Building | the edges of a CompressionDAG as a value, its edits, and the value every buffer stands for |
| Levels | assignLevels() and when its levels climb |
| Liveness, Placement, Execution | live ranges, greedy coloring, runs over shared storage |
| CompressionDag | the mutable CompressionDAG class: levels, streams, groups, coloring, preallocation |
| FusionSelect, FusedGroups | the fusion dynamic program, the greedy selector, installed groups |
| InverseDag, InverseBuilder, Tags | the decompression DAG as a function of the forward topology, and buildInverseDAG() |
| InverseCache | reuse of the decompression DAG across calls |
| OutputWiring | pipeline outputs and the topology handed to the builder |
| Concat | the multi-output archive, byte by byte |
| Padding, Lifecycle | input padding; compress, prepareInverse and decompress as one state machine |
| EndToEnd | both directions together |
| MemoryPool, Negabinary, IncludeClosure | the pool ledger, base -2 coding, the include closure |

A `CompressionDAG` object's fields are read as the value `Contents()`; its methods are proved equal to
the edits in `Graph`, and the theorems are about those values. Loops over unordered containers take
their elements in an arbitrary order. A pool's answer to an allocation is a parameter (`grant`,
`granted`), and so are the step at which a call throws and what memory holds behind a blob (`behind`).

## Where the code does less than it says

Each has its exact condition as a lemma in the table below.

- `align16()` masks a 64-bit size with a 32-bit constant: archives are sound if and only if the header
  and every segment stay within 2^32-16 bytes (`Concat.LayoutSoundIff`).
- `assignLevels()` reads dependencies' levels in insertion order: levels climb if and only if every node
  has a deepest dependency inserted before it (`Levels.LevelsClimbIff`), and only then can the DAG be run
  (`Building.AcyclicSoundIff`).
- A fused runner fills only the tail's first output and unconsumed ports; the run theorems take a group to
  write everything that leaves it, which it does exactly when `Placement.RunnerCoversGroupIff` says
  (`Placement.SecondTailOutputIsMissed` is a group where it does not).
- `prepareInverse()` keeps the trim of an earlier `compress()`, so a blob announced as longer than that
  call's unpadded input is cut to it if that input was padded (`Lifecycle.CompressThenForeignBlob`,
  `Lifecycle.ForeignBlobIsTrimmed`).
- A `compress()` that fails to get a pad buffer clears the trim and loses the old pad buffer but keeps the
  metadata, and one whose size estimate throws leaves the new input's size and trim beside the old metadata
  (`Lifecycle.DecompressAfterFailure`, `Lifecycle.PadRefusalLosesTrim`, `Lifecycle.EstimateFailureSwapsTrim`).
- The header of an archive is copied without a length test, and of it only the count is checked
  (`Concat.OnlyCountIsChecked`).
- A redirected result buffer is external, so `reset()` no longer restores its planned size; after a
  cache hit it is planned at the last reported size (`InverseCache.InvDAGCache.DecompressTwice`,
  `InverseCache.ResultKeepsLastRunSize`).
- `MemoryPool::reset()` zeroes the byte counter with graph allocations alive (`MemoryPool.CounterIsLiveBytesIff`,
  `MemoryPool.GraphFreeAfterResetWraps`).
- Base -2 coding needs a 33rd digit above 1431655765 (`Negabinary.NegabinaryEncode`).
- `DropStalePorts` leaves a dangling edge when a dropped port is still read (`OutputWiring.DroppingKeepsWiringIff`,
  `OutputWiring.ReadPortIsDropped`).
- The fingerprint script's documentation calls an unresolvable quoted include a build error; the code skips it, and so does the model.

## Model

| member | source | states |
|---|---|---|
| EndToEnd.CompressThenDecompress | src/pipeline/compressor_exec.cpp:450-558 | forward: any greedy coloring of any finalized DAG with any disjoint linear groups; inverse: whatever buildInverseDAG() returned, on its own coloring and groups, the result redirected to the caller: both runs are safe, and when the inverse reads the blob the forward run left, the caller's location holds the source's port-0 input |
| EndToEnd.DecompressKthBlob | src/pipeline/compressor_exec.cpp:450-558 | the k-th decompression, for an unpadded caller input: the inverse DAG was built for an earlier blob, its inputs now read device memory at the pointers mapped for the present blob; then the reported bytes in the caller's buffer, taken to be large enough, are the caller's input |
| EndToEnd.ForwardIsBuildable | src/pipeline/compressor_inverse_dag.cpp:59-126 | for a finalized forward DAG and a map of its pipeline outputs, buildInverseDAG() never lacks a source for an inverse input |
| EndToEnd.DetectedForwardIsBuildable | src/pipeline/compressor.cpp:759-837 | with the output list that detection recorded and the DAG it trimmed, buildInverseDAG() never lacks a source |
| EndToEnd.PlanDecompression | src/pipeline/compressor_inverse_dag.cpp:14-231 | for every finalized forward DAG with its output map the builder finishes, the source has a result, and the DAG has a greedy coloring: the premises of the round trip can always be met |
| EndToEnd.BuiltGivesSetting | src/pipeline/compressor_inverse_dag.cpp:14-27 | a finished inverse DAG is wired as the round trip needs, with the recorded result the first output of the source's node |
| EndToEnd.ColoredRoundTrip | src/pipeline/compressor_exec.cpp:62-202 | compress over colored, fused storage, then decompress the blob over the inverse DAG's own colored, fused storage with the result redirected: both runs are alias-safe, and afterwards the caller's location holds the source's port-0 input, for every interleaving inside a level and any initial memory |
| EndToEnd.DecompressRestoresInput | src/pipeline/compressor_exec.cpp:450-558 | the same law for any placement that keeps simultaneously live buffers apart: the result buffer ends up holding the pipeline input |
| EndToEnd.CollectedIsMeaning | src/pipeline/compressor_exec.cpp:159-181 | the segments compress() collects after an aliased run are exactly the values the pipeline outputs stand for |
| EndToEnd.BlobRoundTrip | src/pipeline/compressor_exec.cpp:183-194 | what decompress() finds in a one-output or archived blob is the list of segments compress() put in |
| EndToEnd.SegmentsAreDelivered | src/pipeline/compressor_inverse_dag.cpp:84-102 | every injected inverse input gets the value of the forward output it was injected for |
| EndToEnd.MappedSegmentReadsBack | src/pipeline/compressor_exec.cpp:348-381 | reading device memory at an output's mapped pointer and size yields exactly its segment |
| EndToEnd.MappedBlobIsRead | src/pipeline/compressor_exec.cpp:701-712 | following the pointers of a DAG that agrees with a fresh build for the blob's map feeds every injected input its forward output's segment |
| EndToEnd.ResultIsUnread | src/pipeline/compressor_inverse_dag.cpp:108-122 | no inverse node reads the buffer that gives back an external forward input, so it survives to the end of the run |
| EndToEnd.ResultMeansInput | src/pipeline/compressor_inverse_dag.cpp:108-122 | in the built inverse DAG the first output of a source's node stands for the pipeline input |
| EndToEnd.InverseStorageIsValid | src/pipeline/compressor_exec.cpp:515-519 | coloring plus setExternalPointer() on the result buffer is an alias-safe placement |
| Execution.Run.AliasedRunIsFaithful | src/pipeline/dag.cpp:515-650 | in an alias-safe placement every unit reads, for each buffer entering it, the value that buffer stands for, and every unconsumed buffer still holds its value at the end; fused groups run at their head's level |
| Execution.PlacementDoesNotMatter | src/pipeline/dag_coloring.cpp:31-58 | two placements of the same DAG (one region per color, one location per buffer), any two orders inside the levels and any initial memories: same inputs read, same pipeline outputs |
| Execution.EnteringFromBelow | src/pipeline/dag_coloring.cpp:83-90 | what enters a unit from outside was produced by a unit on a strictly lower collapsed level and is still live there |
| Execution.ProducedInputsEnterAtHead | src/pipeline/dag_coloring.cpp:83-90 | past the head of a linear group a produced input always comes from the previous member |
| Execution.RunMembersAgrees | src/pipeline/dag.cpp:485-509 | running a group's members one after another from correct inputs yields the value of every output of every member |
| Placement.ColoredRunIsFaithful | src/pipeline/dag_coloring.cpp:61-160 | any coloring the greedy loop can produce, fused groups included, is an alias-safe placement, so a run over one region per color is faithful |
| Placement.ColorsAreAliasSafe | src/pipeline/dag_coloring.cpp:117-160 | buffers whose live ranges overlap never share a region |
| Placement.MarkedIsInternal | src/pipeline/dag.cpp:388-411 | what setFusedGroups() marks is exactly the set of consumed buffers that never leave their group |
| Placement.RedirectKeepsAliasSafe | src/pipeline/compressor_exec.cpp:518-519 | moving one buffer to a location nothing else uses keeps a placement alias-safe |
| Placement.RunnerCoversGroupIff | src/pipeline/dag.cpp:435-465 | a fused runner writes exactly the buffers leaving its group if and only if every output of the tail past the first is unconsumed |
| Placement.SecondTailOutputIsMissed | src/pipeline/dag.cpp:435-465 | a tail with two outputs, the second read by a third stage: that buffer leaves the group and the runner does not write it |
| Placement.ExecuteIsATrace | src/pipeline/dag.cpp:520-540 | the level-by-level order of execute() is one of the orders the run theorems range over |
| Liveness.GreedyColoring | src/pipeline/dag_coloring.cpp:132-160 | for any processing order: proper coloring, colors 0..n-1 with none empty, at most maximum degree + 1 of them |
| Liveness.GreedyDegreeBound | src/pipeline/dag_coloring.cpp:142-154 | a buffer's color is at most its number of interfering buffers |
| Liveness.MemorySandwich | src/pipeline/dag_coloring.cpp:38-46 | bytes live at any level <= bytes of all regions <= bytes of all colored buffers, and no buffer exceeds its region |
| Liveness.LastUseIsMax | src/pipeline/dag_coloring.cpp:97-107 | a range ends at the highest collapsed level of a consumer |
| CompressionDag.BuildInterference | src/pipeline/dag_coloring.cpp:117-130 | two buffers are neighbors exactly when their live ranges overlap |
| CompressionDag.SortLongestFirst | src/pipeline/dag_coloring.cpp:132-137 | a permutation of the colorable buffers with longer ranges first |
| CompressionDag.ColorInOrder | src/pipeline/dag_coloring.cpp:142-160 | each buffer gets the lowest color no earlier neighbor has; each region is exactly as large as its largest buffer |
| CompressionDag.LowestFree | src/pipeline/dag_coloring.cpp:153-154 | terminates with the lowest color outside the used set |
| CompressionDag.CrossStreamAlias | src/pipeline/dag_coloring.cpp:167-187 | true exactly when some color holds buffers produced on different streams |
| CompressionDag.ColorOrFallBack | src/pipeline/dag_coloring.cpp:162-196 | with several streams an applied coloring keeps each color on one producer stream; otherwise it is dropped, which happens only if some greedy coloring mixes streams |
| CompressionDag.ComputeRanges | src/pipeline/dag_coloring.cpp:74-109 | the live ranges, with every fused group collapsed onto its head's level |
| CompressionDag.NodeLevels | src/pipeline/dag_coloring.cpp:78-90 | each node's level, or its group head's |
| CompressionDag.MarkInternal | src/pipeline/dag.cpp:388-411 | the set of buffers consumed only inside the group that produces them |
| CompressionDag.PlaceBuffers | src/pipeline/dag_coloring.cpp:38-46 | every colored, non-external buffer gets its region's pointer and size, all others stay as they are |
| CompressionDag.ListByLevel | src/pipeline/dag.cpp:896-900 | each level lists exactly its nodes, once, in insertion order |
| CompressionDag.DealStreams | src/pipeline/dag.cpp:903-913 | only streams change: inside each level they are dealt round-robin in the level's order |
| CompressionDag.CompressionDAG.ColorBuffers | src/pipeline/dag_coloring.cpp:61-196 | state after colorBuffers(): applied colorings are greedy, longest first, and single-stream per color; with fused groups and several streams nothing changes |
| CompressionDag.CompressionDAG.PreallocateBuffers | src/pipeline/dag_coloring.cpp:22-59 | colored: every buffer is in its region and usage grows by exactly the regions' total; uncolored: it succeeds if and only if the pool grants every buffer that needs storage, each then holds its planned size, and usage grows by what was added; under PREALLOCATE it goes uncolored only with several streams, and fused groups or a coloring that mixes producers |
| CompressionDag.CompressionDAG.AllocateBuffer | src/pipeline/dag.cpp:790-854 | only this buffer changes, and none inside a fused group; it succeeds if and only if no storage is needed or the pool grants it; on success its storage holds its planned size, on refusal it is unallocated; usage and its peak follow |
| CompressionDag.CompressionDAG.AllocateEach | src/pipeline/dag_coloring.cpp:47-57 | succeeds if and only if every buffer that needs storage is granted it; usage grows by the sum over all of them |
| CompressionDag.CompressionDAG.AssignLevels | src/pipeline/dag.cpp:876-901 | levels as read in insertion order, their maximum, and the per-level lists |
| CompressionDag.CompressionDAG.Finalize | src/pipeline/dag.cpp:292-372 | levels, one stream per node of the widest level unless streams were configured (the default stream for a chain), dealt round-robin inside each level; nothing else about a node changes |
| CompressionDag.MeasureWidest | src/pipeline/dag_query.cpp:205-212 | the size of the largest level |
| CompressionDag.CompressionDAG.SetFusedGroups | src/pipeline/dag.cpp:383-412 | the groups and exactly their internal edges |
| CompressionDag.CompressionDAG.Reset | src/pipeline/dag.cpp:674-724 | every non-external buffer is back at its planned size; under MINIMAL storage that is not persistent is given back and usage is zero, under PREALLOCATE both stay |
| CompressionDag.CompressionDAG.SetExternalPointer | src/pipeline/dag.cpp:750-778 | the buffer becomes external at the given pointer; the usage counter drops by its size exactly when it had storage of its own |
| CompressionDag.CompressionDAG.ConnectExistingOutput | src/pipeline/dag.cpp:220-247 | the output port becomes the consumer's next input, on both sides of the edge; false and no change when the port does not exist |
| CompressionDag.CompressionDAG.SetInputBuffer | src/pipeline/dag.cpp:160-179 | a fresh external buffer on the node's next input position |
| CompressionDag.CompressionDAG.AddUnconnectedOutput | src/pipeline/dag.cpp:199-218 | a fresh buffer on the node's next output position and port |
| Building.ConnectKeepsGrowing | src/pipeline/dag.cpp:220-247 | connecting an output keeps node-side and buffer-side edges, dependents and dependencies in agreement |
| Building.OutputKeepsGrowing | src/pipeline/dag.cpp:199-218 | adding an output keeps them in agreement |
| Building.InjectKeepsGrowing | src/pipeline/dag.cpp:160-179 | adding an external input keeps them in agreement |
| Building.ConnectExtends | src/pipeline/dag.cpp:220-247 | connecting only appends: nothing already wired changes |
| Building.FinalizedSoundIff | src/pipeline/dag.cpp:292-372 | a wired DAG can be run after finalize() if and only if its levels climb along every edge |
| Building.AcyclicSoundIff | src/pipeline/dag.cpp:876-901 | an acyclic wired DAG can be run after finalize() if and only if every stage with dependencies was added after one of its deepest ones |
| Levels.LevelsClimbIff | src/pipeline/dag.cpp:876-901 | for every acyclic graph: all edges climb if and only if every node with dependencies has a deepest one inserted before it, and then each level is the exact depth |
| Levels.TopologicalInsertionClimbs | src/pipeline/compressor_inverse_dag.cpp:36-37 | inserting every stage after its dependencies is enough |
| Levels.ConsumerFirstBreaksLevels | src/pipeline/dag.cpp:888-891 | a consumer added before its producer lands on the same level |
| InverseDag.InverseRestores | src/pipeline/compressor_inverse_dag.cpp:34-103 | every inverse output port holds the forward value of the matching forward input, by induction from the last forward stage to the first, fan-out included |
| InverseDag.WiringIsTotalIff | src/pipeline/compressor_inverse_dag.cpp:59-103 | wiring succeeds exactly when every consumed buffer's last reader has that port in inverse mode and every other buffer is in the output map; then inverse input k carries forward output k |
| InverseDag.FinalizedIsSound | src/pipeline/compressor_inverse_dag.cpp:36-37 | reverse insertion makes assignLevels() give strictly climbing levels |
| InverseDag.ConsumersFacts | src/pipeline/compressor_inverse_dag.cpp:50-57 | the map holds exactly the buffers some stage reads, each with its last reading stage and a genuine position |
| InverseDag.AddStagesFacts | src/pipeline/compressor_inverse_dag.cpp:34-47 | after step 1 every stage has its node, in reverse, with all its inverse ports and nothing wired |
| InverseDag.WireOneKeeps | src/pipeline/compressor_inverse_dag.cpp:64-102 | wiring one input succeeds exactly when it has a source and keeps everything wired before |
| InverseBuilder.BuildInverseDAG | src/pipeline/compressor_inverse_dag.cpp:14-231 | succeeds if and only if every input has a source, a source stage is found and has an inverse output, and, when buffers are preallocated one by one, the pool grants each; then the wiring above, leveled, sized and placed, with the greedy groups of the finished DAG; it goes uncolored only for the reasons preallocation does |
| InverseBuilder.BuildConsumers | src/pipeline/compressor_inverse_dag.cpp:50-57 | the loop computes the last-reader map |
| InverseBuilder.WireInputs | src/pipeline/compressor_inverse_dag.cpp:59-103 | the loops build exactly the specified wiring or stop at the first input without a source |
| InverseBuilder.MarkResults | src/pipeline/compressor_inverse_dag.cpp:105-126 | each source's result is its node's first output; false exactly where the source throws |
| InverseBuilder.PropagateSizes | src/pipeline/compressor_inverse_dag.cpp:179-193 | walking the levels upwards leaves every output at the estimate computed from its node's final input sizes |
| InverseBuilder.EstimateNode | src/pipeline/compressor_inverse_dag.cpp:182-191 | only this node's outputs change size, and they match its estimate |
| InverseBuilder.GrowResults | src/pipeline/compressor_inverse_dag.cpp:194-218 | each result is planned at max(estimate, recorded source size), every other size stays |
| InverseBuilder.BuiltAtPlannedSizes | src/pipeline/compressor_inverse_dag.cpp:179-218 | in a finished inverse DAG every buffer is at its planned size |
| InverseBuilder.ResultPlannedAt | src/pipeline/compressor_inverse_dag.cpp:194-218 | a source's result is planned at the larger of its recorded size and, where its stage has one, its estimate |
| InverseBuilder.SameWiringSameValue | src/pipeline/compressor_inverse_dag.cpp:176-222 | sizes, streams and pointers do not change what a buffer stands for |
| InverseBuilder.GroupsCarryOver | src/pipeline/compressor_inverse_dag.cpp:128-177 | groups chosen before finalize() stay linear, disjoint and with the same internal edges after it |
| InverseBuilder.BuiltGroupsAreMaximal | src/pipeline/compressor_inverse_dag.cpp:128-177 | in a finished inverse DAG every registered run of two or more consecutive nodes, on a chain from a dependency-free node, shares a node with an installed group |
| FusionSelect.PlanFusion | src/pipeline/compressor.cpp:215-276 | the walk yields ordered, disjoint registered spans of length >= 2 that save as many launches as any disjoint set of registered spans |
| FusionSelect.NoSelectionBeats | src/pipeline/compressor.cpp:235-249 | no disjoint set of registered spans from position lo on saves more than the table entry best[lo] |
| FusionSelect.EnumerateCandidates | src/pipeline/compressor.cpp:224-233 | exactly the registered spans of length >= 2 |
| FusionSelect.FillTable | src/pipeline/compressor.cpp:237-249 | backwards in place: each entry is the maximum over skipping and every candidate starting there, with a choice attaining it |
| FusionSelect.Walk | src/pipeline/compressor.cpp:251-276 | the reconstruction walk collects the chosen spans in order |
| FusionSelect.WalkAttainsBest | src/pipeline/compressor.cpp:251-276 | the walk attains the table entry of its start |
| FusionSelect.SelectGreedily | src/pipeline/compressor_inverse_dag.cpp:142-169 | the longest-first greedy loop |
| FusionSelect.GreedyIsMaximal | src/pipeline/compressor_inverse_dag.cpp:142-169 | ordered, disjoint registered spans, and every registered span meets a chosen one |
| FusionSelect.PlannerAtLeastGreedy | src/pipeline/compressor.cpp:235-276 | on the same chain and registry the planner saves at least as many launches as the greedy selector |
| FusionSelect.GreedyCanLose | src/pipeline/compressor_inverse_dag.cpp:142-169 | a registry on which greedy saves strictly less |
| FusedGroups.WalkChain | src/pipeline/compressor_inverse_dag.cpp:134-141 | from the start node, the chain that goes on as long as a node has one dependent with one dependency that is not claimed |
| FusedGroups.ChainFromIsMaximal | src/pipeline/compressor_inverse_dag.cpp:134-141 | it is a linear chain of distinct unclaimed nodes, and at its end linearity breaks or the next node is claimed |
| FusedGroups.ChainsMeet | src/pipeline/compressor_inverse_dag.cpp:133-141 | chains of two different dependency-free nodes share no node |
| FusedGroups.ChainsListed | src/pipeline/compressor_inverse_dag.cpp:133-133 | the walked chains are those of the dependency-free nodes, all of them and no others |
| FusedGroups.SelectInverseGroups | src/pipeline/compressor_inverse_dag.cpp:129-173 | the installed groups are the greedy groups of every walked chain, in node order; linear, node-disjoint, of length >= 2; claiming a node never cuts a later chain short |
| FusedGroups.InverseSelectionIsMaximal | src/pipeline/compressor_inverse_dag.cpp:129-173 | every registered run of two or more consecutive nodes on a walked chain shares a node with an installed group |
| FusedGroups.ShapeDecidesGroups | src/pipeline/compressor_inverse_dag.cpp:128-177 | leveling and sizing do not change what is selected, so the finished DAG has its own greedy groups |
| FusedGroups.InstallBest | src/pipeline/compressor.cpp:214-277 | the groups of one maximal chain are those of a best selection on it |
| FusedGroups.PlanForwardGroups | src/pipeline/compressor.cpp:210-284 | the installed forward groups are, chain by chain, those of a best selection on every maximal chain; linear and node-disjoint |
| FusedGroups.PlannedGroupsSaveMost | src/pipeline/compressor.cpp:210-284 | no choice of disjoint registered spans on the maximal chains saves more launches in total than what is installed |
| FusedGroups.GroupsOnChain | src/pipeline/compressor.cpp:254-263 | groups cut from ordered spans of a chain are linear and disjoint |
| OutputWiring.AutoDetectUnconnectedOutputs | src/pipeline/compressor.cpp:759-837 | fails exactly when a port has no buffer; otherwise the output list, the trimmed nodes and the marked buffers, everything else unchanged |
| OutputWiring.DropStalePorts | src/pipeline/compressor.cpp:808-833 | a node keeps exactly the ports its stage still has, in port order |
| OutputWiring.OutputsAreOpenPorts | src/pipeline/compressor.cpp:777-806 | the list holds exactly the unread ports, in node-then-port order, hence each once |
| OutputWiring.EveryOutputReadOrListedOnce | src/pipeline/compressor.cpp:759-837 | every output left on a node is read by a stage or listed exactly once, and sits at its port's position |
| OutputWiring.DetectedIsPipelineOutputs | src/pipeline/compressor.cpp:759-837 | the recorded list is the list of pipeline outputs of the trimmed and finalized DAG, whose nodes have exactly their stage's ports |
| OutputWiring.DroppingKeepsWiringIff | src/pipeline/compressor.cpp:808-833 | dropping ports keeps the edges consistent if and only if no stage reads a dropped port |
| OutputWiring.ReadPortIsDropped | src/pipeline/compressor.cpp:808-833 | two stages whose edges agree, the second port of one read by the other, which then reports one output: detection succeeds, the port is gone while its reader stays, and the edges no longer agree |
| OutputWiring.CollectTopology | src/pipeline/compressor_exec.cpp:656-666 | one description per node, level by level |
| OutputWiring.TopologyIsWirable | src/pipeline/compressor_exec.cpp:656-671 | that list is topological, and the builder finds a source for every inverse input if and only if every unread output is in the map |
| OutputWiring.LoneOutputIsPortZero | src/pipeline/compressor_exec.cpp:186-194 | a lone pipeline output is port 0 of its stage, so its size may be looked up under the stage's first output name |
| Concat.Align16RoundsUpIff | src/pipeline/pipeline_utils.h:13-14 | align16() rounds a 64-bit size up to 16 if and only if it is at most 2^32-16 (the mask is a 32-bit constant); beyond that it falls short of the size |
| Concat.LayoutSoundIff | src/pipeline/pipeline_utils.h:35-46 | header and segments stay in bounds and apart if and only if the header and every segment are at most 2^32-16 bytes |
| Concat.LayoutSoundIffRoomy | src/pipeline/compressor.cpp:1056-1067 | for any slot rule: bytes stay in bounds and apart exactly when no slot is smaller than its content |
| Concat.BigSegmentIsOverwritten | src/pipeline/pipeline_utils.h:13-14 | a 5 GiB segment followed by 16 bytes: the second is written inside the first |
| Concat.ConcatOutputs | src/pipeline/compressor.cpp:1084-1112 | the first total bytes are the archive of the segments whatever the recycled buffer held, bytes behind are untouched, and the returned end offset is the calculated size |
| Concat.WriteConcatBuffer | src/pipeline/compressor.cpp:1036-1082 | header, slots and zero padding exactly as specified, end offset equal to the calculated size |
| Concat.CalculateConcatSize | src/pipeline/compressor.cpp:1029-1034 | the end offset of the layout |
| Concat.SegmentOffsets | src/pipeline/compressor_exec.cpp:358-365 | the running offsets of the reader (and of the writer's descriptors), one per segment, and the end |
| Concat.ReadConcatSegmentSizes | src/pipeline/compressor_exec.cpp:258-285 | the size fields of the copied header, or an error when its count differs; for a blob with its whole header they are the blob's |
| Concat.OnlyCountIsChecked | src/pipeline/compressor_exec.cpp:261-274 | a blob that has its count field is accepted if and only if the count fits, even when it is cut off inside the header: the rest of the header is then what memory holds behind it |
| Concat.ConcatRoundTrip | src/pipeline/compressor_exec.cpp:348-381 | reading a written archive gives back exactly the sizes and exactly the segments |
| Concat.SegmentInArchive | src/pipeline/compressor.cpp:1084-1112 | the bytes of the archive at a segment's offset are that segment |
| Concat.ArchiveIsInjective | src/pipeline/compressor.cpp:1036-1082 | different segment lists never give the same archive |
| Concat.OtherCountIsRefused | src/pipeline/compressor_exec.cpp:267-274 | a pipeline accepts an archive if and only if it has as many outputs as segments were written |
| Concat.ArchivePaddingIsZero | src/pipeline/compressor.cpp:1101-1112 | every byte outside header fields and segments is zero |
| Concat.RestIsZero | src/pipeline/compressor.cpp:1101-1112 | the same for every prefix of the archive and any layout with room |
| Concat.BytesRoundTrip | src/pipeline/compressor.cpp:1047-1054 | fixed-width little-endian fields read back |
| Padding.AlignmentOf | src/pipeline/compressor.cpp:415-424 | the multiples of the running LCM are exactly the lengths every stage accepts |
| Padding.LcmDividesIff | src/pipeline/compressor.cpp:422-422 | the LCM divides exactly the common multiples |
| Padding.PadUpIsLeastIff | src/pipeline/compressor_exec.cpp:39-40 | rounding up gives the least suitable length if and only if n + align - 1 does not wrap at 2^64 |
| Padding.InputStager.ComputeInputAlignment | src/pipeline/compressor.cpp:415-431 | the hint becomes the least length from the given one on that every stage accepts |
| Padding.InputStager.PreallocatePadBuffer | src/pipeline/compressor.cpp:493-507 | succeeds if and only if the pool grants or the buffer is large enough already; then the pad buffer holds any padded input within the hint, otherwise the old buffer is gone too |
| Padding.InputStager.PrepareInputSource | src/pipeline/compressor_exec.cpp:19-60 | outside graph replay it fails exactly where a larger pad buffer is needed and refused; otherwise the source is the input zero-padded to the least acceptable length, trims back to the input size, and inputs within the hint never grow the pad buffer |
| Padding.FillPadded | src/pipeline/compressor_exec.cpp:49-52 | the input, then zeros up to the padded length, stale bytes behind untouched |
| InverseCache.InvDAGCache.BuildOrReuse | src/pipeline/compressor_exec.cpp:638-713 | a hit always succeeds, a miss exactly when the builder does; on either branch the cached DAG agrees with a build from the current output map: same wiring, every external input identical, pointer and size included; a build is at its planned sizes with room for the source, a hit only resets what it does not refresh, a failed build leaves the old cache in place |
| InverseCache.InvDAGCache.RunOnce | src/pipeline/compressor_exec.cpp:518-550 | redirecting the result, recording actual sizes and reset() keep the cache usable for later calls |
| InverseCache.RefedAgrees | src/pipeline/compressor_exec.cpp:701-712 | a DAG built for one output map and used any number of times agrees, once its inputs carry another map's segments, with a build from that other map |
| InverseCache.WireAllAlike | src/pipeline/compressor_inverse_dag.cpp:59-103 | the wiring depends on the output map only through injected pointers and sizes |
| InverseCache.ScanFindsInjected | src/pipeline/compressor_exec.cpp:674-685 | because tags print and parse one-to-one, the tag scan recovers exactly the injected inputs |
| InverseCache.CollectExternals | src/pipeline/compressor_exec.cpp:674-685 | every external input with a parseable tag is in the map |
| InverseCache.Refresh | src/pipeline/compressor_exec.cpp:702-708 | each known input gets its segment's pointer and size, nothing else changes |
| InverseCache.InvDAGCache.DecompressTwice | src/pipeline/compressor_exec.cpp:515-550 | a build, a run on it, and a hit for the next blob: succeeds exactly when the build does; the result was planned at the larger of estimate and recorded size; it is at that size again if and only if the run reported exactly that size or none, and fewer bytes are asked for if and only if the run reported fewer |
| InverseCache.InvDAGCache.RunThenHit | src/pipeline/compressor_exec.cpp:515-550 | from any state of the cache: after a run and a hit the next decompression asks for what the run reported, or for what the run itself asked for if it reported nothing |
| InverseCache.ResultKeepsLastRunSize | src/pipeline/compressor_exec.cpp:701-712 | a cache for one stage whose result was planned at 64 bytes and whose first run reported 5: after the hit its result buffer has 64 planned bytes and size 5 |
| InverseCache.AgreesIsFed | src/pipeline/compressor_exec.cpp:701-712 | in a DAG that agrees with a fresh build, every injected input points at its output's segment, with its size |
| Tags.TagRoundTrip | src/pipeline/compressor_inverse_dag.cpp:94-97 | the tag of a 32-bit id parses back to that id |
| Tags.StoiOfToString | src/pipeline/compressor_exec.cpp:678-683 | printing and parsing an int are inverse on the whole 32-bit range |
| Lifecycle.Pipeline.Compress | src/pipeline/compressor_exec.cpp:62-202 | for each failure the condition before the call under which it happens, and what it leaves: the metadata is one entry per output in order on success, empty after a failed run, the previous call's after any other failure; on success the source has the least acceptable length and the trim is the input's length exactly when it was padded |
| Lifecycle.Pipeline.PrepareInverse | src/pipeline/compressor_exec.cpp:287-300 | one placeholder entry per output; the trim of an earlier compress() is not cleared |
| Lifecycle.Pipeline.DecompressCore | src/pipeline/compressor_exec.cpp:450-558 | whatever throws after the save and whatever the inverse run leaves behind, every stage is back in forward mode with the configuration it had |
| Lifecycle.Pipeline.PrimarySize | src/pipeline/compressor_exec.cpp:383-409 | whichever source is primary, the recorded size is the one compress() or prepareInverse() stored |
| Lifecycle.Pipeline.ResolveSegmentSizes | src/pipeline/compressor_exec.cpp:326-346 | header sizes for an archive, the whole blob for a single output, recorded sizes on the live path |
| Lifecycle.Pipeline.MapSegments | src/pipeline/compressor_exec.cpp:348-381 | exactly one segment per pipeline output, at its layout offset, at the blob, or where the DAG holds it |
| Lifecycle.CollectMetadata | src/pipeline/compressor_exec.cpp:159-181 | one entry per output in order, or failure at the entry that throws |
| Lifecycle.CompressThenForeignBlob | src/pipeline/compressor_exec.cpp:287-300 | compress(), prepareInverse() for another blob, decompress() of it: the announced size is reported if and only if the compressed input needed no padding or was at least as long; otherwise the old input's length is reported |
| Lifecycle.ForeignBlobIsTrimmed | src/pipeline/compressor_exec.cpp:555-558 | a pipeline with 4096-byte alignment after compress() of 1000 bytes and prepareInverse(4096): the announced size is 4096, the remembered trim 1000, and 1000 is reported |
| Lifecycle.DecompressAfterFailure | src/pipeline/compressor_exec.cpp:62-202 | a compress() that fails, then decompress() of the earlier blob: its report is as without the failed call if and only if the call was refused on entry, or the pad buffer lacked and nothing had to be trimmed, or the estimate threw and old and new input trim alike; all conditions are on the state before the call |
| Lifecycle.PadRefusalLosesTrim | src/pipeline/compressor_exec.cpp:38-47 | a blob of 1000 bytes reports 1000; after compress() of 5000 bytes is refused a pad buffer it reports 4096 |
| Lifecycle.EstimateFailureSwapsTrim | src/pipeline/compressor_exec.cpp:100-110 | the same blob after a size estimate for 5000 bytes threw: 4096 is reported, and the recorded sizes and the trim are those of the input that was never compressed |
| Lifecycle.RunFailureForgetsBlob | src/pipeline/compressor_exec.cpp:195-201 | the same blob after a failed run: it is refused |
| MemoryPool.Pool.Allocate | src/mem/mempool.cpp:173-211 | ledger kept; exactly one new entry in the chosen map, or none |
| MemoryPool.Pool.Free | src/mem/mempool.cpp:213-249 | ledger kept; the entry leaves whichever map holds it, unknown pointers change nothing |
| MemoryPool.Pool.Reset | src/mem/mempool.cpp:310-336 | ledger kept; exactly the non-graph entries are freed and graph bytes drop out of the counter |
| MemoryPool.Pool.AllocatePersistent | src/mem/mempool.cpp:250-280 | the byte counter of that kind stays the sum of its entries |
| MemoryPool.Pool.FreePersistent | src/mem/mempool.cpp:282-308 | the first entry with that pointer and kind goes, and the counter stays the sum |
| MemoryPool.CounterIsLiveBytesIff | src/mem/mempool.cpp:310-336 | on any valid pool the byte counter equals the live bytes if and only if no graph bytes were alive at the last reset, and reads more than the live bytes once fewer live than were alive then |
| MemoryPool.GraphFreeAfterResetWraps | src/mem/mempool.cpp:310-336 | Allocate 64 graph bytes, Reset, Free: every map is empty and the counter reads 64 below its modulus |
| Negabinary.NegabinaryEncode | examples/integer_transforms_intro.cpp:94-105 | terminates; the digits of x as a word, within 32 digits if and only if x <= 1431655765 |
| Negabinary.NegabinaryDecode | examples/integer_transforms_intro.cpp:107-116 | the signed 32-bit value of the word's base -2 digits |
| Negabinary.NegabinaryRoundTrip | examples/integer_transforms_intro.cpp:94-116 | decoding undoes encoding for every int32 up to 1431655765 |
| Negabinary.EncodingUndoesDecoding | examples/integer_transforms_intro.cpp:94-116 | re-encoding what a word stands for gives the word back |
| Negabinary.DecodeIsInjective | examples/integer_transforms_intro.cpp:107-115 | before the cast, different words of the same width stand for different numbers |
| Negabinary.DigitCountIff | examples/integer_transforms_intro.cpp:94-105 | a number needs at most k digits exactly inside the k-digit range |
| Negabinary.StepDecreases | examples/integer_transforms_intro.cpp:98-104 | the measure that shows termination although -1 steps to 1 |
| IncludeClosure.Closure | scripts/gen_stage_fingerprints.py:97-117 | terminates on cyclic graphs with exactly the existing files reachable from the seeds |
| IncludeClosure.ClosureIsMonotone | scripts/gen_stage_fingerprints.py:97-117 | the result depends on the set of seeds only, and more seeds never lose a file |
| IncludeClosure.ClosureIsIdempotent | scripts/gen_stage_fingerprints.py:97-117 | closing a closure adds nothing |
| IncludeClosure.FindFile | scripts/gen_stage_fingerprints.py:90-94 | the first existing candidate, in canonical form |

## Left out

- GPU kernels, events, graph capture and replay, CUDA/HIP calls, profiling and logging; the gather kernel's launch limits.
- Cross-stream hazards under coloring: only that buffers of one color are produced on one stream is claimed.
- Stages that lose information: a stage's inverse is taken to give back its inputs exactly; without that the round trip is not claimed.
- Stage objects: names, output counts and size estimates are functions of a stage's id, and one stage never occurs twice in a DAG.
- DAGNode pointers: a node is a record at its position in the node list, and an edge is a pair of positions.
- The cycle check in finalize() (Kahn's algorithm); the run theorems ask for climbing levels instead.
- The MINIMAL strategy's reference counts and on-demand allocation during execute().
- Two locations of a zero-sized region may share the null pointer; a location in a run is a color, and the pool's refusal of a region is not checked by the source either.
- FusedGroups.PlanForwardGroups: takes the chains of planFusionGroups() as given, linear and disjoint, because the legality planner and the registry only widen or narrow the search; the check that every stage has a node is left out with it.
- EndToEnd.DecompressKthBlob: locations are unlimited and the run is over the DAG as it was built, fed through the reused one, so a result buffer that a cache hit asks to be too small (InverseCache.InvDAGCache.DecompressTwice says when) does not show; the cache object does not carry the forward run.
- Padding.Lcm: unbounded, because std::lcm is undefined when its result does not fit.
- Intermediate buffer sizes after a cache hit and getMaxCompressedSize(), which depend on stage estimates.
- InverseCache.InvDAGCache.BuildOrReuse: on a hit it does not notice an output missing from the map, as the source does not; agreement with a fresh build is claimed for maps a fresh build accepts.
- Negabinary.NegabinaryEncode: the word past 32 digits is the unbounded sum, because shifting a 32-bit word that far is undefined in C++.
- CompressionDag.CompressionDAG.SetExternalPointer: the DAG's usage counters are unbounded; the source's unsigned counter is only reported, and wraps where a size was changed between allocation and release.
- MemoryPool.Pool: the persistent byte counters and call counters are unbounded, because they never exceed what was handed out.
- File headers, TOML configuration, the CLI, zigzag and sign-magnitude coding.
