# Verification of the inference engine's core algorithms

This project models the parts of the engine where a small slip would silently give wrong
numbers, and proves what each is for.  It covers:

- **Tensor views** (`Layout`, `Reshape`, `ReshapeStates`, `ReshapeSteps`, `ReshapeRuns`, `TensorTypes`, `Dense`, `DenseStorage`).
  A type gives each axis a length and a storage stride.  `try_reshape` looks for strides that
  give other axes to the same storage.  It is proved exact: it answers if and only if such
  strides exist.  Where the source pushes a bare run stride (`src/tensor/types.rs:530-532`) and
  the intent needs that stride times the target axes already taken, both rules are modelled; the
  intended one is proved right, and the written one is proved right under a condition that is
  both necessary and sufficient.
- **Union-find, topological order and kernel fusion** (`Partitions`, `DisjointSets`,
  `TopologicalOrder`, `Kernels`, `KernelsBuilder`, `KernelMeaning`, `KernelFusion`,
  `BuildKernels`).  Operators are uninterpreted functions over an acyclic graph in which no value
  is defined twice.  Running the fused kernels in order is proved to give every value they hand
  out its node-by-node value.
- **Graph comparison and rewriting** (`StructuralEquivalence`, `UseDefIndex`, `GraphIndex`,
  `DeadNodes`, `ViewChains`, `Pruning`, `GraphRewriting`, `ViewMeaning`, `Evaluation`,
  `ViewTypes`, `ViewFolding`, `CopyElimination`, `PassMeaning`, `Passes`).  The memoised
  comparison accepts exactly isomorphic graphs.  The use index equals recomputation after every update, and the
  definition index stays right for everything that is read, over any sequence of passes and
  deletions on one `SimpleGraphOp`.  The passes over view nodes are sequences of steps, each of
  which keeps all solutions of the graph's equations, so any number of passes, each followed by
  its deletion, leaves what every graph output hands out as it was.
- **The collective protocol** (`Wire`, `Collective`, `Communicator`, `Simulation`, `Handshake`).
  A hub and its spokes step in any interleaving over first-in first-out channels; a rank that
  fails closes its channels.  The results of all ranks are identical left folds, rounds never
  mix, nothing deadlocks, every run ends, and exactly the ranks with a call in a round in which
  the calls differ fail.  Each call of the sequential code is proved to be a run of protocol
  steps on the encoded channels.
- **The generation session** (`Generation`, `LlmSession`, `KvPosition`).  A key/value cache is
  written in place by prefill and decode runs; a ghost history says which tokens its first
  `past_len` entries stand for.
- **Smaller cores** (`Bfloat16`, `Quantize`, `Placement`, `InputTypes`): int8 quantisation with a
  bfloat16 scale, the budgeted device cut, and matching of symbolic dimensions.

Objects that the source updates in place are classes here (`UnionFind`, `SimpleGraphOp`,
`Comparison` and `Bijective`, `Stream`, `Session`, `InputTypes.Graph`); in-place buffers are
arrays (the reduction, the cache, the quantised weights, the rank table).  Functions and lemmas
specify them.

Beside the main theorems, short lemmas say in terms of fields, slots and bytes what the functions
in the contracts mean (`PresentInOrder`, `RewiredSlots`, `FrameBytes`, `SizeMeans` and others), so
that a contract does not rest on a definition alone.

Where a property does not hold of the code, the exact condition is proved instead:

- `TensorTypes.TryReshape` with the bare push is right exactly when `WholeRuns` holds, and
  `DenseStorage.BarePushFails` is an input for which it does not.
- After a deletion the definition index equals recomputation exactly when no unreached node
  defines anything (`DeadNodes.DefinitionsStayExact`): the second loop of
  `update_deleted_nodes` skips the nodes that the first has just marked.
  `DeadNodes.UnusedNodeLeavesEntry` is a graph of three nodes for which it does not.
- The elimination of contiguous nodes does not look at the views they apply
  (`src/transform/utils.rs:371-380`).  An output keeps its value for every meaning of the views
  exactly when the node has none (`CopyElimination.SkipIsRightExactly`);
  `CopyElimination.SquareTransposeIsLost` is an input for which it does not.  Contiguous nodes
  with views are made before it, for example in `src/transform/epilog/lower_nhwc2nchw.rs:35-46`.
- The streaming rank table that decode builds, for the position before the write, follows token
  order exactly while the ring is not full or has a single slot
  (`KvPosition.PreWriteTableFollowsTokens`); `KvPosition.PreWriteTableOutOfOrder` is an input for
  which it does not.

Assumptions that the statements make explicit: axis lengths are at least 1; operator graphs are
closed, acyclic, define no value twice and no value of an initial tensor; view nodes have one
output and read a first input; channels are ideal until a rank closes them; the language model is
causal.

## Model

| member | source | states |
|---|---|---|
| TensorTypes.CalcStride | src/tensor/types.rs:614-622 | the strides are, axis by axis from the left, the product of the lengths after it, and 0 for a length of 1 |
| TensorTypes.ContiguousOffset | src/tensor/types.rs:386-393 | in a type made by `new`, row-major element k sits at storage offset k |
| TensorTypes.SizeMeans | src/tensor/types.rs:124-191 | a tensor without axes counts 0 elements, any other one the product of its lengths; a shape goes with scalars exactly when all lengths are 1 |
| TensorTypes.TryReshape | src/tensor/types.rs:497-573 | a result exists exactly when some stride vector for the target keeps every element at its offset; with the scaled push the result is such a vector, with the push as written it is one exactly when every target suffix divides the source run it ends in; axes of length 1 get stride 0 |
| TensorTypes.TakeNextTarget | src/tensor/types.rs:530-532 | the run serves one more target axis; the invariant is kept that what is pushed so far is what these axes need, up to the push rule |
| TensorTypes.TakeNextSource | src/tensor/types.rs:533-536 | a source axis whose stride continues the run joins it and the invariant is kept |
| TensorTypes.UseRun | src/tensor/types.rs:525-546 | one pass of the outer loop uses up target axes and keeps the invariant between runs; when it gives up, no strides for the target keep the offsets |
| TensorTypes.PlaceStrides | src/tensor/types.rs:551-565 | the strides found go to the axes longer than 1, in order, and 0 to the others |
| Reshape.NoStridesFit | src/tensor/types.rs:537-539 | when a needed join fails, every stride vector for the target misplaces some element |
| Reshape.StridesUnique | src/tensor/types.rs:517-547 | for axes longer than 1 the offsets leave only one stride vector |
| Reshape.CrossingForcesStride | src/tensor/types.rs:533-533 | a target axis that crosses a source axis boundary is possible only if the outer stride continues the inner run |
| DenseStorage.ContiguousAlwaysViews | src/transform/utils.rs:186-187 | a reshape of a contiguous type to the same number of elements never needs a copy, so its `unwrap` holds |
| DenseStorage.BarePushFails | src/tensor/types.rs:530-532 | the push as written is wrong for a contiguous [4, 6] viewed as [6, 4] |
| Dense.NewIsDense | src/tensor/types.rs:386-393 | the offsets of a new type are a bijection onto 0 up to its size |
| Dense.TransposeMoves | src/tensor/types.rs:455-464 | transposing renumbers the elements and moves no storage offset |
| Dense.RowMajor | src/tensor/types.rs:386-393 | elements are numbered row by row: the last axis counts one by one, the axis before it by its length |
| Dense.TransposeKeepsDense | src/tensor/types.rs:455-464 | a transposed dense type is dense |
| Dense.ReshapeKeepsDense | src/tensor/types.rs:497-573 | a view of a dense type with the same elements is dense |
| DenseStorage.DenseStorageIsSize | src/tensor/types.rs:584-596 | the storage count of a dense type, the largest length times stride, is its element count |
| Dense.StorageMeans | src/tensor/types.rs:584-596 | of any type, dense or not: 1 if all lengths are 1, else the largest length times stride of an axis |
| DenseStorage.IsContiguous | src/tensor/types.rs:470-479 | the loop accepts exactly the strides that are 0 or the product of the inner lengths |
| DenseStorage.DenseContiguous | src/tensor/types.rs:470-479 | a dense type is contiguous exactly when its strides are those of `calc_stride` |
| DenseStorage.BuiltIsDense | src/tensor/types.rs:385-596 | every type reached by any nesting of `new`, `transpose` and `try_reshape` is dense, occupies its size, and is contiguous exactly when its strides are those of `calc_stride` |
| DisjointSets.UnionFind.constructor | src/utils.rs:12-18 | every element is a class of its own |
| DisjointSets.UnionFind.Representative | src/utils.rs:20-27 | the root is found and every element keeps its root, although the path is compressed; parents have higher ranks, so the search ends |
| DisjointSets.UnionFind.Merge | src/utils.rs:29-46 | exactly the two classes become one, under the root of higher rank or else the first one's, and the invariant is kept: roots agree exactly for elements that the merges relate, a root's size is its class's cardinality and at least 2 to its rank |
| DisjointSets.UnionFind.IsSame | src/utils.rs:48-50 | true exactly when the merges so far relate the two elements |
| DisjointSets.UnionFind.Size | src/utils.rs:52-55 | the number of elements the merges relate to the given one |
| DisjointSets.UnionFind.Groups | src/utils.rs:63-70 | every class exactly once, in ascending order inside |
| DisjointSets.GroupOf | src/utils.rs:63-70 | in terms of the elements: each is in exactly one group, which lists its class in ascending order |
| Partitions.LabelsAreLeast | src/utils.rs:29-46 | what the merges relate is contained in every equivalence that relates the merged pairs |
| Partitions.CompressKeepsSets | src/utils.rs:25-25 | path compression keeps the whole invariant |
| Partitions.JoinKeepsSets | src/utils.rs:36-45 | hanging one root under one at least as high keeps the whole invariant and changes the root of one class only |
| TopologicalOrder.Adjacency | src/graph/utils.rs:45-54 | node b is listed under node a exactly when b reads a value that a defines |
| TopologicalOrder.Dfs | src/graph/utils.rs:16-35 | after a visit everything reachable is finished, and every finished node comes after its readers in the list being built |
| TopologicalOrder.SimpleTopologicalOrder | src/graph/utils.rs:15-63 | lists every computing node exactly once, every producer before all its consumers |
| TopologicalOrder.TopologicalMeans | src/graph/utils.rs:15-63 | such an order lists exactly the live nodes that are no input, output or state marker, each once, and a node that defines a value ahead of each that reads it |
| StructuralEquivalence.InfoOf | src/graph/utils.rs:370-405 | every output slot of a computing node is collected as the definition of its value, and nothing else; on a well-formed graph the definitions are closed and acyclic |
| StructuralEquivalence.Bijective.Add | src/graph/utils.rs:345-355 | a pair is added exactly if its left value is new and its right value not taken, or if it is there already, so the correspondence stays one-to-one; a refused pair changes nothing |
| StructuralEquivalence.Comparison.CompValue | src/graph/utils.rs:429-535 | accepting a pair of values keeps all pairs found so far consistent and adds the pair; no isomorphism that pairs the values is ever contradicted |
| StructuralEquivalence.Comparison.CompDefined | src/graph/utils.rs:483-534 | the same for values that nodes define: same slot, same operator, same inputs, or a node pair found before |
| StructuralEquivalence.Comparison.CompInputs | src/graph/utils.rs:510-525 | the same for the input lists of two nodes, slot by slot |
| StructuralEquivalence.Check | src/graph/utils.rs:543-585 | accepts exactly the graphs with pairwise equal input and output types, looked up in the type tables and equal also when both are missing, that a one-to-one renaming of values and nodes relates which keeps operators, slots, argument order and input positions |
| StructuralEquivalence.AcceptedAreRenamed | src/graph/utils.rs:429-585 | the isomorphism that the comparison builds is such a renaming, and every renaming is one it accepts |
| StructuralEquivalence.AcceptedGraphsAgree | src/graph/utils.rs:429-585 | accepted graphs give equal outputs for every meaning of the operators and every input |
| StructuralEquivalence.AcceptsItself | src/graph/utils.rs:719-725 | every graph is accepted against itself |
| Kernels.CandidateEdgesForward | src/schedule/kernel.rs:37-81 | among fusion candidates every edge runs forward in the list |
| Kernels.MatesAreReaders | src/schedule/kernel.rs:89-115 | who is fused with whom, said of the readers: a node with a later mate is read by a mate and by mates only, and a node read only by candidates of one class is of that class |
| Kernels.PresentInOrder | src/schedule/kernel.rs:135-139 | the given inputs keep their slot order, and a missing one leaves no gap |
| Kernels.SlotsOfPresent | src/schedule/kernel.rs:219-228 | the slots named ascend, and each is where the given input of the same position stands |
| KernelMeaning.ElementwiseInOrder | src/schedule/kernel.rs:219-228 | an elementwise node computes on its inputs in slot order, as if missing slots were not there |
| KernelsBuilder.ReadersClass | src/schedule/kernel.rs:99-108 | finds the one class that holds every reader of the node's output, if there is one, and changes no class |
| KernelsBuilder.TryFuse | src/schedule/kernel.rs:89-115 | keeps, one node further back, that a node shares a class with a later one exactly when all readers of its output are of that class |
| KernelsBuilder.FuseAll | src/schedule/kernel.rs:177-180 | after the loop this holds of every candidate |
| KernelsBuilder.Group | src/schedule/kernel.rs:176-201 | the groups kept are exactly the classes of two or more nodes, each once and ascending |
| KernelsBuilder.BundleArgs | src/schedule/kernel.rs:135-155 | there is one argument for each given input, in slot order; it refers to an earlier result of the group exactly when a member defines the value, else to an input slot that holds it |
| KernelsBuilder.BuildBundledOps | src/schedule/kernel.rs:118-164 | the small program of a group: every operator reads exactly what its node reads, in slot order, and the inputs are values from outside the group, each listed once |
| KernelsBuilder.MarkGroup | src/schedule/kernel.rs:203-208 | all members of a group are ignored but the last, which carries the group; other tags stay |
| KernelsBuilder.TagMeaning | src/schedule/kernel.rs:189-209 | a node is ignored exactly when its class has a later node, and a group tag names the class that ends at the node |
| KernelsBuilder.SingleKernel | src/schedule/kernel.rs:215-234 | a node alone becomes a kernel with its own inputs and outputs, an elementwise one reading the slots that are given in ascending order |
| KernelsBuilder.Run | src/schedule/kernel.rs:171-396 | one kernel per group, where its last node stood, and one per other node, in topological order |
| Kernels.OneKernelEach | src/schedule/kernel.rs:211-395 | there is exactly one kernel for each node without a later mate, in the order of the nodes |
| KernelFusion.KernelIsRight | src/schedule/kernel.rs:378-391 | when a kernel's turn comes its inputs are there, and its results are the node-by-node values |
| KernelFusion.KernelRunRight | src/schedule/kernel.rs:211-395 | the kernels run in order never miss an input, and leave exactly the values visible outside the groups, all with their node-by-node value |
| KernelFusion.FusionPreservesMeaning | src/schedule/kernel.rs:171-396 | the two evaluations agree wherever both have a value, and every computed value that an output reads is there |
| BuildKernels.Build | src/schedule/kernel.rs:399-405 | the kernels come from grouping and emitting along a topological order of the graph |
| BuildKernels.BuiltKernelsAreRight | src/schedule/kernel.rs:399-405 | kernels so built, run in order, never miss an input; all values they hand out belong to one solution of every node, and every computed value an output reads is among them |
| UseDefIndex.CalcValue2xx | src/transform/modify.rs:163-180 | the use index holds exactly the reading places of live nodes and no empty row, the definition index a defining slot for exactly the values that have one |
| UseDefIndex.UseIndexIsUnique | src/transform/modify.rs:163-180 | only one use index agrees with a graph, so keeping agreement is keeping equality with recomputation |
| UseDefIndex.DefinitionIndexIsUnique | src/transform/modify.rs:163-180 | the same for the definition index when no value is defined twice |
| GraphRewriting.SimpleGraphOp.constructor | src/transform/modify.rs:187-194 | both indexes start equal to the recomputed ones; on a graph in which no node defines an initial tensor the definition index is right for everything that is read |
| GraphRewriting.SimpleGraphOp.RegisterNewNode | src/transform/modify.rs:198-214 | the node is appended and its outputs are recorded; the use index still equals recomputation, and a node that defines new values keeps the definitions sound |
| GraphRewriting.SimpleGraphOp.ReplaceInputValueIf | src/transform/modify.rs:216-260 | exactly the reading places of the old value in nodes that satisfy the predicate read the new one, output markers name it, and the use index still equals recomputation |
| GraphIndex.RewiredSlots | src/transform/modify.rs:231-256 | slot by slot: the selected slots hold the new value, every other slot, output and operator is as before, and a turned output marker names the new value |
| GraphRewriting.SimpleGraphOp.ReplaceInputValue | src/transform/modify.rs:42-72 | the same for every reader, between values of equal type; a definition index that is exact stays exact, and one that is sound stays sound if the new value has its definition |
| GraphRewriting.SimpleGraphOp.SetNodeInput | src/transform/modify.rs:270-287 | one slot is set, after padding with empty slots, and the use index still equals recomputation |
| GraphIndex.InputSetSlots | src/transform/modify.rs:270-287 | slot by slot: the slot holds the value, missing slots before it are empty, every other slot and node is as before |
| GraphRewriting.SimpleGraphOp.DropNodeInput | src/transform/modify.rs:289-301 | one slot is emptied and the use index still equals recomputation; the inconsistent case cannot occur |
| DeadNodes.UsedNodesDfs | src/transform/modify.rs:349-370 | adds the node and everything it needs: all of it reachable from an output, and every added node's producers included |
| DeadNodes.UsedNodes | src/transform/modify.rs:306-309 | visits exactly the nodes that the outputs reach backwards |
| DeadNodes.ReachedOn | src/transform/modify.rs:349-370 | what is reached: the outputs, and the live node that defines a value read by a reached node that is no graph input, initial tensors apart |
| DeadNodes.ReachedFrom | src/transform/modify.rs:349-370 | and nothing else |
| DeadNodes.DeleteOutside | src/transform/modify.rs:311-333 | marks exactly the computing nodes outside the visited set and takes exactly their reads off the use index |
| DeadNodes.DropDefinitions | src/transform/modify.rs:335-344 | drops exactly the definitions of live unvisited nodes; those of nodes just deleted stay |
| DeadNodes.PrunedIsSound | src/transform/modify.rs:305-345 | after deletion every value a kept node reads still has its right definition |
| DeadNodes.DefinitionsStayExact | src/transform/modify.rs:335-344 | the definition index equals recomputation after deletion if and only if no unreached node defines anything |
| DeadNodes.LeftBehindOrLost | src/transform/modify.rs:335-344 | otherwise: a deleted node's first output keeps a stale entry, a kept marker's first output loses its entry |
| DeadNodes.UnusedNodeLeavesEntry | src/transform/modify.rs:335-344 | a graph of three nodes whose definition index is not exact after deletion |
| GraphRewriting.SimpleGraphOp.UpdateDeletedNodes | src/transform/modify.rs:305-345 | all of this for one call: deletes exactly the computing nodes that outputs do not reach, keeps the graph well-formed and the markers as they are, and keeps the definition index right for everything that is read, so the next pass can run |
| Pruning.PrunedNode | src/transform/modify.rs:305-345 | node by node: exactly the nodes that are not reached and no markers are marked deleted |
| Pruning.PruningKeepsGood | src/transform/modify.rs:305-345 | a graph that is closed, singly defined and acyclic is so after deletion |
| GraphRewriting.SimpleGraphOp.WalkChainBackward | src/transform/modify.rs:94-119 | the nodes found form a chain of matching nodes that ends in the value, and no matching node defines the value it starts from; entries of deleted nodes in the index are never met, and the walk ends in an acyclic graph |
| GraphRewriting.SimpleGraphOp.WalkChainForward | src/transform/modify.rs:124-150 | the nodes found form a chain in which each is the sole reader of the value before it, and cannot be made longer |
| ViewFolding.BundleReshapeAndTranspose | src/transform/utils.rs:269-305 | the operations are those of the whole chain in order, and no reshape or transpose defines the value it starts from |
| ViewMeaning.OpsMeanNode | src/transform/utils.rs:287-301 | the views taken for a node do what the node does: a reshape from the dims of its input to those of its output, a transposition by its permutation |
| ViewTypes.ChainFits | src/transform/utils.rs:269-305 | the views of a chain fit together, from the dims of its source to those of its end, if every view node's output has the dims that its own view gives |
| ViewTypes.RewritingKeepsTyped | src/transform/shape.rs:782-797 | rewriting gives the value of every new node the dims that its views make of its input's, and keeps this for all other view nodes |
| ViewFolding.ConvertOne | src/transform/utils.rs:325-354 | if something other than a reshape or transpose reads the value, all its readers read one new reinterpret node instead, else nothing changes |
| ViewFolding.ReinterpretConversion | src/transform/utils.rs:312-356 | such a step for every reshape and transpose, consumers first, from any state that earlier passes and deletions leave; afterwards only reshapes and transposes read the outputs of reshapes and transposes |
| ViewFolding.ViewsAreReadByViews | src/transform/utils.rs:325-336 | in terms of the nodes: afterwards what reads a reshape's or transpose's output is a reshape or transpose |
| ViewFolding.StartsChain | src/transform/utils.rs:433-446 | true exactly for a reinterpret or contiguous node whose input is not the single read of another one's output |
| ViewFolding.StartsUnlessFed | src/transform/utils.rs:433-446 | in terms of the nodes: a chain starts unless a reinterpret or contiguous node defines the input and no other slot reads it |
| ViewFolding.FoldOne | src/transform/utils.rs:449-498 | the longest chain from the node, if it has several nodes and one copies, becomes one contiguous node with all its views; any other chain stays |
| ViewFolding.FoldedChain | src/transform/utils.rs:449-498 | in terms of the nodes: the chain goes on while one slot reads its end and belongs to a reinterpret or contiguous node; with two or more nodes and a contiguous one among them there is one new contiguous node with its views, else nothing changes |
| ViewFolding.ContiguousFolding | src/transform/utils.rs:428-499 | the chains from all starting nodes of the graph, each once and in a topological order, are folded one after another; without forward folding nothing changes |
| ViewMeaning.ChainMeans | src/transform/utils.rs:269-305 | the value at a chain's end is its start with the chain's views applied in order |
| ViewMeaning.StepKeepsGood | src/transform/utils.rs:339-354 | replacing a chain's end keeps the graph closed, singly defined and acyclic |
| ViewMeaning.StepBack | src/transform/utils.rs:339-354 | every solution of the rewritten graph is one of the graph before, with the new value equal to the chain's end |
| ViewMeaning.StepForward | src/transform/utils.rs:339-354 | every solution before extends to one after |
| ViewMeaning.RewritingKeepsOutputs | src/transform/utils.rs:312-500 | for any meaning of views and operators, any number of rewriting steps leaves every graph output's value as it was, chains that share nodes included, however the two graphs are evaluated from the same inputs and initial tensors |
| ViewMeaning.RewritingKeepsEvaluations | src/transform/utils.rs:312-500 | any evaluation of the graph extends to one of the rewritten graph |
| CopyElimination.ContiguousElimination | src/transform/utils.rs:362-391 | exactly the contiguous nodes whose input is stored contiguously and has the dims of the output are taken out, in ascending order; nothing reads their outputs afterwards |
| CopyElimination.ChosenMeans | src/transform/utils.rs:368-381 | in terms of the node: chosen exactly if its input is stored contiguously and has the dims of its output |
| CopyElimination.SkipKeepsGood | src/transform/utils.rs:384-389 | turning the readers of a copy to its input keeps the graph closed, singly defined and acyclic |
| CopyElimination.SkipKeepsSolutions | src/transform/utils.rs:384-389 | where a copy equals its input, the graph before and after has the same solutions |
| CopyElimination.SkipIsRightForValue | src/transform/utils.rs:368-381 | an output that hands out a copy hands out the same value afterwards exactly when the node's views leave their tensor as it is |
| CopyElimination.SkipIsRightExactly | src/transform/utils.rs:368-381 | it does so for every meaning of the views exactly when the node has none, which the selection does not ask |
| CopyElimination.SquareTransposeIsLost | src/transform/utils.rs:368-381 | a copy in transposed order of a 2 by 2 tensor is taken out and the output is handed out untransposed |
| PassMeaning.PruningCarries | src/transform/modify.rs:305-345 | after deletion every evaluation still is one, and every output hands out the same value |
| PassMeaning.RewritingCarries | src/transform/utils.rs:312-500 | any number of rewriting steps extends every evaluation, keeps every output's value and gives no new values |
| PassMeaning.SkippingCarries | src/transform/utils.rs:384-389 | taking out any number of plain copies changes no value at all |
| Passes.RunPasses | src/transform.rs:51-60 | each pass does what it promises from the state the deletion before it left, and the deletion after it leaves the state the next one needs |
| Passes.PassesCarry | src/transform.rs:51-60 | any evaluation extends through any number of passes, each followed by its deletion, where the nodes that eliminations take out have no views |
| Passes.PassesKeepOutputs | src/transform.rs:51-60 | for any meaning of views and operators, any number of passes, each followed by its deletion, leaves every graph output's value as it was, where the nodes that eliminations take out have no views |
| Passes.ConversionLeavesNoView | src/transform/utils.rs:312-356 | the conversion and the deletion after it leave no live reshape and no live transpose |
| Passes.LateFoldingEliminatesPlain | src/transform/epilog.rs:17-21 | if contiguous nodes only copy at first and chains are folded only after the last elimination, every elimination takes out nodes without views |
| Passes.Epilog | src/transform/epilog.rs:17-21 | conversion, elimination on CUDA, and folding, each with its deletion, leave no reshape and no transpose |
| Passes.EpilogKeepsOutputs | src/transform/epilog.rs:17-21 | they leave every graph output's value as it was; on CUDA if contiguous nodes only copy when they begin |
| Wire.HelloRead | crates/comm/src/uds.rs:167-183 | the hub reads a rank exactly from a stream that starts with that rank's hello |
| Wire.FrameRead | crates/comm/src/uds.rs:185-211 | a read succeeds with a payload exactly on the frame a write of that payload makes, and takes nothing more off the stream |
| Wire.FrameMismatch | crates/comm/src/uds.rs:202-209 | a frame of another tag or length is refused |
| Wire.NumberRoundTrip | crates/comm/src/uds.rs:187-200 | little-endian encoding followed by decoding gives the number back within its range |
| Wire.ByteOrder | crates/comm/src/uds.rs:187-200 | the least significant byte comes first |
| Wire.HelloBytes | crates/comm/src/uds.rs:167-171 | the eight bytes of a hello |
| Wire.FrameBytes | crates/comm/src/uds.rs:185-192 | the bytes of a frame: tag, length in eight bytes, payload; the tags are 1 and 2 |
| Communicator.Stream.ReadFrame | crates/comm/src/uds.rs:194-211 | one frame is taken off the stream, or the read fails at its end or on another frame |
| Communicator.Stream.WriteFrame | crates/comm/src/uds.rs:185-192 | one frame is appended |
| Communicator.Reduce | crates/comm/src/uds.rs:144-154 | the buffer holds, word by word, its old words plus the received ones; other bytes stay |
| Communicator.ReducedWord | crates/comm/src/uds.rs:147-151 | each common word of the result is the sum of the two words, in that order |
| Communicator.ReducedBytes | crates/comm/src/uds.rs:144-154 | in terms of the bytes: words that both buffers have are added, every other byte stays |
| Communicator.FoldedWords | crates/comm/src/uds.rs:107-112 | in terms of the bytes: a word of the result is the hub's own plus those in the spokes' frames, added in rank order |
| Communicator.GatherAll | crates/comm/src/uds.rs:109-112 | succeeds exactly when every spoke has sent a fitting frame, and the buffer is the left fold in rank order |
| Communicator.SendAll | crates/comm/src/uds.rs:113-115 | every spoke gets exactly one frame |
| Communicator.HubAllReduce | crates/comm/src/uds.rs:98-116 | the two together, and a buffer that is no whole number of words is refused |
| Communicator.HubBarrier | crates/comm/src/uds.rs:125-134 | succeeds exactly when every spoke has sent a barrier frame, and then sends each one |
| Communicator.SpokeAllReduce | crates/comm/src/uds.rs:117-120 | sends the buffer and replaces it by the hub's answer; fails on any other frame |
| Communicator.SpokeBarrier | crates/comm/src/uds.rs:135-138 | sends a barrier frame and succeeds exactly on one in return |
| Communicator.FitsIsRead | crates/comm/src/uds.rs:194-211 | a message fits a call in the protocol exactly when the byte-level read takes its frame |
| Communicator.FoldIsTotal | crates/comm/src/uds.rs:107-112 | the fold that the hub's code computes is the protocol's total |
| Simulation.EncodedRead | crates/comm/src/uds.rs:194-211 | on the bytes of a channel a read takes the first message exactly when it fits the call |
| Simulation.HubAllReduceRuns | crates/comm/src/uds.rs:98-116 | the hub's call is a run of protocol steps on the encoded channels, which returns or fails with it; in a reachable state a buffer it leaves is the left fold of the round |
| Simulation.HubBarrierRuns | crates/comm/src/uds.rs:125-134 | the same for the hub's barrier |
| Simulation.SpokeAllReduceRuns | crates/comm/src/uds.rs:117-120 | a spoke's call is a step that sends, the others' steps until the answer is there, and a step that takes it; in a reachable state a buffer it leaves is the left fold of the round |
| Simulation.SpokeBarrierRuns | crates/comm/src/uds.rs:135-138 | the same for a spoke's barrier |
| Collective.StepKeepsInv | crates/comm/src/uds.rs:98-141 | the protocol invariant is kept by every step of any rank, also when ranks fail and close their channels |
| Collective.TotalInOrder | crates/comm/src/uds.rs:107-112 | the fold takes the hub's input first and folds each spoke's in on the right, in rank order |
| Collective.RoundsAgree | crates/comm/src/uds.rs:98-123 | in every interleaving each rank's result of a round is the identical left fold hub, rank 1, rank 2 and so on, with no law assumed of the addition |
| Collective.RoundsNeverMix | crates/comm/src/uds.rs:202-209 | a rank returns from a round only if all ranks called the same collective with the same length in it |
| Collective.NoneReturnsEarly | crates/comm/src/uds.rs:125-141 | no rank returns from its k-th collective before every rank entered its k-th |
| Collective.FailureMeansMismatch | crates/comm/src/uds.rs:202-209 | a rank, hub or spoke, fails only in a round in which the ranks' calls differ |
| Collective.SomeRankCanStep | crates/comm/src/uds.rs:98-141 | no deadlock, whatever the ranks call: some rank can step until each has returned from its last call or failed |
| Collective.RunsFinish | crates/comm/src/uds.rs:98-141 | every run is finite, with a stated bound; when it cannot go on, exactly those ranks have failed that have a call in a round in which the ranks' calls differ, and every other rank has returned from all its calls with the same folds |
| Handshake.Accept | crates/comm/src/uds.rs:55-75 | succeeds exactly when the accepted streams name every spoke once, and then entry i is the stream to rank i + 1 |
| Handshake.NoSlotEmpty | crates/comm/src/uds.rs:73-75 | by pigeonhole no slot is empty, so the `unwrap` holds |
| Generation.AnswerIsGreedy | crates/llm/src/session.rs:367-393 | a reply is the model's greedy continuation of all tokens seen, no longer than asked for, with no stop string in it |
| Generation.AnswerIsOnly | crates/llm/src/session.rs:367-424 | greedy, cut at nothing but its last token and complete: this leaves one reply |
| Generation.Limits.NeededIsLeast | crates/llm/src/session.rs:350-356 | a prompt takes the least number of whole chunks that hold it, or one position a token without prefill |
| Generation.AnswerIsMaximal | crates/llm/src/session.rs:367-392 | only the last token may end the text and no part holds a stop string; a shorter reply ends the text, fills the cache, or its next token would complete a stop string |
| LlmSession.Session.Run | crates/llm/src/session.rs:442-455 | a run on several tokens writes their cache entries and no position from the end of the run on |
| LlmSession.Session.DecodeStep | crates/llm/src/session.rs:508-537 | one more entry, and the model's next token |
| LlmSession.Session.RunChunk | crates/llm/src/session.rs:431-476 | a padded chunk leaves the entries of its real tokens below past_len and returns the logits of its last real token |
| LlmSession.Session.RunPrefillRec | crates/llm/src/session.rs:426-480 | chunk after chunk: the entries of the whole prompt, and the logits of its last token; every position written is below max_seq_len |
| LlmSession.Session.FeedPrompt | crates/llm/src/session.rs:372-382 | prefill and token-by-token feeding both leave the entries of the prompt and give the same next token |
| LlmSession.Session.TruncateAtStop | crates/llm/src/session.rs:411-424 | pops to the longest prefix without a stop string: every longer one has one and rewinds the cache with it; past_len never saturates |
| LlmSession.Session.Generate | crates/llm/src/session.rs:333-394 | a prompt that fits is answered with the specified reply, history and past_len, one that does not is refused with the positions needed and changes nothing; empty prompts and zero new tokens give an empty reply |
| LlmSession.Session.Reset | crates/llm/src/session.rs:303-305 | the cache stands for no token |
| LlmSession.ServedInTurn | crates/llm/src/session.rs:303-394 | calls are served one after another, each from where the one before left the session |
| LlmSession.PrefillIsTransparent | crates/llm/src/session.rs:426-485 | over any sequence of generate and reset calls that it accepts, a session with prefill gives the replies and keeps the history of one without |
| LlmSession.PastLenIsCounted | crates/llm/src/session.rs:345-424 | over any sequence of calls past_len is start + prompt length + returned tokens - 1 summed over the calls that ran the model since the last reset, and never above max_seq_len |
| KvPosition.StreamingKvPosition | crates/llm/src/session.rs:604-635 | the table slot by slot, and that it is a permutation of the positions |
| KvPosition.RankOutside | crates/llm/src/session.rs:618-632 | slots outside the ring keep their own position |
| KvPosition.RanksAreAPermutation | crates/llm/src/session.rs:604-635 | all ranks are in range and no two slots share one |
| KvPosition.RankOfToken | crates/llm/src/session.rs:604-635 | a retained token's rank is its place among the retained tokens |
| KvPosition.PostWriteTableFollowsTokens | crates/llm/src/session.rs:558-558 | the table for the position after the write, as prefill asks for it, follows token order |
| KvPosition.PreWriteTableFollowsTokens | crates/llm/src/session.rs:585-585 | the table for the position before the write, as decode asks for it, follows token order if and only if the ring is not full yet or has one slot |
| KvPosition.PreWriteTableOutOfOrder | crates/llm/src/session.rs:585-585 | one sink slot, a ring of two and three tokens: the decode table ranks the new token before the one that precedes it |
| Bfloat16.ConversionRounds | crates/llm/src/quantize.rs:74-81 | the result is the upper half, plus one above half a unit or at half of an odd one |
| Bfloat16.ConversionIsNearest | crates/llm/src/quantize.rs:74-81 | no 16-bit pattern is closer, and on a tie the result is even (roundTiesToEven, section 4.3.1 of IEEE 754-2019) |
| Bfloat16.ConversionError | crates/llm/src/quantize.rs:74-81 | the conversion is off by at most 1/256 of the value |
| Bfloat16.ConversionKeepsSign | crates/llm/src/quantize.rs:74-81 | a negative pattern converts as its positive one with the sign bit |
| Bfloat16.ConversionOfNan | crates/llm/src/quantize.rs:74-81 | exactly the patterns that are no numbers, of either sign, give 0x7FC0 |
| Bfloat16.ValueMeans | crates/llm/src/quantize.rs:44-46 | the value of a pattern: 0x3F800000 is 1, one more in the exponent doubles it, the 23 bits below add their share |
| Quantize.ReadBackError | crates/llm/src/quantize.rs:143-154 | a weight within its scale's range is not clamped and reads back, with the stored scale, within 255/256 of one step |
| Quantize.LargestMagnitude | crates/llm/src/quantize.rs:138-138 | the fold gives the largest magnitude of the row |
| Quantize.QuantizePerChannel | crates/llm/src/quantize.rs:124-169 | tensors of less than two dimensions are refused; otherwise every weight of every channel is stored as the nearest number of steps and reads back within 255/256 of a step of its channel's scale |
| Quantize.WeightError | crates/llm/src/quantize.rs:137-154 | in terms of the weights: each reads back within 255/256 of a 127th of the largest magnitude in its channel, up to the rounding of the scale to single precision |
| Quantize.ScaleIsExact | crates/llm/src/quantize.rs:138-142 | the scale is a 127th of the largest magnitude, and 1 for a channel of zeros |
| Placement.KvSpans | src/schedule/placement.rs:75-82 | each session state's first and last touch |
| Placement.StraddlesIsSplits | src/schedule/placement.rs:107-107 | a cut inside some span is a cut with a touch of one state on both sides |
| Placement.BudgetCut | src/schedule/placement.rs:95-104 | the largest prefix whose counted weights fit the budget |
| Placement.Schedule.WeightMeans | src/schedule/placement.rs:85-94 | which weights count: an input adds its bytes exactly if it is an initial tensor of at least the minimum size |
| Placement.ResidentBudget | src/schedule/placement.rs:67-120 | the largest cut that fits the budget and splits no session state; kernels that read or define one state are on one device |
| Placement.Schedule.WhyNotLonger | src/schedule/placement.rs:95-109 | a longer prefix is over the budget or has kernels that touch one session state on both sides |
| InputTypes.Graph.UnifyTypes | src/graph.rs:61-92 | success is a match under the extended map, and no assignment that extends the known one and matches is lost |
| InputTypes.Graph.TryUnifyType | src/graph.rs:125-173 | the same for one value in each mode: comparing strides asks for equality with a resolved type, the other modes lose no assignment; and which types are overwritten |
| InputTypes.FitsMeans | src/graph.rs:68-89 | a match in terms of the declared dimensions: constants are equal, symbols stand for the given sizes |
| InputTypes.WantedInOrder | src/graph.rs:106-114 | the inputs to be given are those without an initial tensor, in order |
| InputTypes.Graph.ResolveInputTypes | src/graph.rs:102-123 | succeeds exactly when the counts match and one assignment, extending the known one, fits all declared types; then the map holds such an assignment with no symbol that is not declared, and the table has the given type for every wanted input that was not resolved before |

## Left out

- Code emission for LLVM and CUDA, the session back ends, buffers and foreign libraries: their
  effects are string generation and calls into code that is not part of this model.
- Memory planning, stream scheduling and the optimisation passes that are only named in
  `src/transform/optimize.rs`.
- CPU workspace sizing inside `KernelsBuilder::run` (`src/schedule/kernel.rs:235-370`): it only
  registers scratch inputs.
- ONNX and safetensors files, tokenizers, chat templates, user interfaces and command lines.
- `UnionFind::append`, which does not extend `sizes`, so the invariant cannot be stated for it.
- `f16_bits_to_f32`, `copy_view`, `cast_to_bf16` and the streaming of shards.
- `ContiguousOutput`, `NHWC2NCHWLowering` and `CleanupTensors`: single replacements of the kind
  proved for `ReplaceInputValue`, and the removal of initial tensors that nothing reads.
- Strides of graph values in the rewriting model: values have their dims, the elimination of
  copies gets the set of contiguously stored values as a parameter, and the comparison of types
  before a replacement is the comparison of dims.
- Axes of length 0: every length is at least 1.
- Machine integers: sizes, offsets, ranks of nodes and token counts are unbounded, so overflow of
  `usize` is not modelled; wire numbers, f32 patterns and bfloat16 patterns have their widths.
- Hash map and index set order: rows of the use index are sets and the order of the groups that
  `groups` returns is left open; the order inside a group is fixed.
- Names and error texts: an error is a refusal, and values, nodes and kernels have no names.
- Failures of model runs, of sockets and of the tokenizer, and the state they leave behind;
  timeouts and retries of connecting.
- Attention arithmetic and floating-point addition: the model's next entry, its logits and the
  sum of two words are uninterpreted functions.
- External tensor references: every initial tensor is inline, and comparison is without epsilon.
- Session states as defined values in the structural comparison: the source has no definition
  for them and would fail.
- In-place update of key/value caches inside kernels: in the fusion theorem a node's outputs are
  new values.
- Streaming sessions beyond the rank table: the ring layout inside the attention kernels is not
  part of this model.
- `Placement::uniform` and `structural_kv_touch`, which are one collect each.
- KernelsBuilder.Run: the scratch inputs that are registered with a kernel on CPU targets are not
  part of the kernels it returns.
- Retrying a collective: a rank that has failed makes no further call and closes its channels.
- LlmSession.Session.Run: the network is one causal function per position, so the positions and
  the active length passed to it are not separate inputs.
- Quantize.QuantizePerChannel: real arithmetic, except for rounding to integers, of the scale to
  single precision (any faithful rounding) and of the stored scale to bfloat16.
- GraphRewriting.SimpleGraphOp.SetNodeInput: it does not rename an output marker, so the
  statement that output markers name what they read is kept only for other nodes, as in the
  source.
- InputTypes.Graph.ResolveInputTypes: the graph's input values are distinct, as each belongs to
  an input node of its own.
- StructuralEquivalence.Check: the left graph is acyclic and every value that is read is known,
  which the source assumes when it recurses and unwraps.
- ViewTypes.RewritingKeepsTyped: a view node's dims are those that its views make; the source's
  inference gives a contiguous node its input's dims whatever views it applies
  (`src/transform/shape.rs:778-781`), which the passes do not ask for.
- KernelsBuilder.TryFuse: an elementwise node with no reader is left alone, as in the source,
  where the lookup of its readers ends the call.
