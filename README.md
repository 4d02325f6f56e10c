# Replica synchronisation, matrix buffers, node shapes and add kernels of the Marian toolkit, in Dafny

This project models four self-contained pieces of the Marian neural machine
translation toolkit and proves what each of them guarantees.

- **Sharded replica synchronisation** (`DefaultCommunicator`, modules
  `Sharding` and `Communicator`).
  - Every device holds a replica of the flat parameter vector: its values
    `vals[r]` and its gradients `grads[r]`.
  - `foreach` cuts the vector into one contiguous shard per replica. Each
    shard has `ceil(total / n)` elements, clipped to what remains.
  - A worker per shard then runs one of the collectives: `scatterReduce`,
    `allGather`, `allReduceGrads`/`reduceGrads`, `pushParams`, `pullParams`
    and `swapParams`.
  - The source runs the workers in threads. Here they run one after another.
    Each worker writes only inside its own shard, and the proofs show that the
    shards are a partition of `[0, total)`.
  - Each collective is a value-level `foreach` driver, for example
    `ScatterAll`, proved against a specification function such as
    `ScatterReduced`. The class `DefaultCommunicator` reassigns its fields
    from these drivers.
- **Growable matrix buffer** (`TMatrix`, module `Matrix`).
  - A class with fields `rows`, `cols`, capacity `arrSize` and a nullable
    array `data`.
  - `Resize` reallocates only when the new shape needs more room, and keeps
    the old contents at the front of the new buffer.
  - `Reshape`, `Clear`, `swap` and the constructors rewrite the fields.
  - The accessors `Rows`, `Cols` and `Size` (`size()`, which is `cols * rows`)
    are functions of the fields.
- **Graph node structure** (modules `NodeShapes` and `NodeIdentity`).
  - The output shapes of transpose, sum, mean, step and masked pooling.
  - Transpose's backward permutation `axesBw_`, Mean's divisor and the step
    view's byte offset.
  - The parameter-sensitive `equal` and the memoised `hash`.
  - The storage-free lifecycle of the aliasing reshape and step nodes.
- **CPU add kernels** (module `AddKernel`).
  - `gAddEqual`, `gAddReduce` and `gAddGeneric` accumulate
    `scale * functor(inputs)` into `out`, and `Add` picks one by shape.
  - Every path only adds to `out`.
  - The reduce path adds each row's sum of terms to `out[row]`. The row sums
    together make up the sum over the whole broadcast shape.

Element values are integers. C++ `int` division and remainder, which truncate
toward zero, are written out as `NodeShapes.TruncDiv` and `NodeShapes.TruncMod`.

## Model

| member | source | states |
|---|---|---|
| Sharding.CeilDiv | src/training/communicator.h:31 | the shard size is the least q with q * n >= total: the ceiling of total / n |
| Sharding.ShardContiguous | src/training/communicator.h:35-43 | each shard ends exactly where the next begins, so pos advances by the shard's clipped size |
| Sharding.ShardBounds | src/training/communicator.h:36 | no shard is longer than ceil(total / n), and none ends past total |
| Sharding.ShardsReachTotal | src/training/communicator.h:35-43 | after the n shards, pos has reached total: the shards cover the whole vector |
| Sharding.ShardPosIsPrefixSum | src/training/communicator.h:38-42 | every shard starts at the sum of the lengths of the shards before it, and shard 0 starts at 0 |
| Sharding.OwnerOf | src/training/communicator.h:35-43 | every element of [0, total) lies in some shard i < n |
| Sharding.ShardOwnerUnique | src/training/communicator.h:35-43 | an element lies in shard i if and only if i is its owner: shards never overlap |
| Sharding.ShardsDisjoint | src/training/communicator.h:35-43 | two shards that share an element are the same shard |
| Sharding.Foreach | src/training/communicator.h:29-47 | the worker runs exactly once per replica index 0..n-1, in order, and receives that shard's start offset |
| Sharding.UnclippedSliceOverruns | src/training/communicator.h:106 | with 5 elements on 2 replicas, the last worker's unclipped slice [3, 6) ends past the vector's end at 5 |
| Communicator.ScatterReducedSums | src/training/communicator.h:98-121 | after scatterReduce, the owner of every element holds the sum of that element over all replicas |
| Communicator.AllReduceSums | src/training/communicator.h:148-153 | scatterReduce then allGather(false) leaves every replica's gradient equal to the elementwise sum of all old gradients |
| Communicator.GatherIdempotent | src/training/communicator.h:124-146 | allGather keeps the owner's element, makes all replicas identical, and a second allGather changes nothing |
| Communicator.PullThenPush | src/training/communicator.h:159-185 | pushParams right after pullParams returns exactly the shard buffers that were pulled |
| Communicator.PushThenPull | src/training/communicator.h:159-185 | when the replicas agree and each buffer has its shard's length, pullParams of what pushParams produced restores the values |
| Communicator.SwapTwiceRestoresShards | src/training/communicator.h:187-210 | swapping the shard buffers in and out twice returns the original shard buffers |
| Communicator.ScatterShard | src/training/communicator.h:104-118 | replica idx's gradient on its own shard gains every other replica's gradient there; its other elements and every other replica are unchanged |
| Communicator.GatherShard | src/training/communicator.h:129-143 | every replica takes replica idx's elements on shard idx; all other elements are unchanged |
| Communicator.CopyShardToOthers | src/training/communicator.h:137-142 | the copy loop writes the source replica's range into every other replica and nothing else |
| Communicator.PullShard | src/training/communicator.h:176-183 | every replica takes the shard buffer over [pos, pos + length); all other elements are unchanged |
| Communicator.SwapShard | src/training/communicator.h:191-207 | every replica, including the last (via the first), ends with the shard buffer on the range, and the returned buffer is the last replica's old range |
| Communicator.ScatterAll | src/training/communicator.h:98-121 | running the scatter worker for every shard yields ScatterReduced of the old gradients |
| Communicator.GatherAll | src/training/communicator.h:124-146 | running the gather worker for every shard yields Gathered: each element is the owner's old element |
| Communicator.PullAll | src/training/communicator.h:173-185 | running the pull worker for every shard yields Pulled: each replica holds params[i] at the start of shard i |
| Communicator.SwapAll | src/training/communicator.h:187-210 | with at least two replicas, the values become Pulled and the shard buffers become the last replica's old shards |
| Communicator.DefaultCommunicator.constructor | src/training/communicator.h:91-94 | constructing without an inter-process transport yields the replicas as given, with no scratch buffers yet |
| Communicator.DefaultCommunicator.Init | src/training/communicator.h:66-87 | allocates one scratch buffer per shard, of that shard's clipped length, and only on the first call |
| Communicator.DefaultCommunicator.ScatterReduce | src/training/communicator.h:98-121 | the gradients become ScatterReduced of the old gradients, and the values are unchanged |
| Communicator.DefaultCommunicator.AllGather | src/training/communicator.h:124-146 | the chosen kind of buffer (values or gradients) becomes Gathered, and the other kind is unchanged |
| Communicator.DefaultCommunicator.AllReduceGrads | src/training/communicator.h:148-153 | a no-op with at most one replica; otherwise every replica's gradient is the elementwise sum of all old gradients, and the values are unchanged |
| Communicator.DefaultCommunicator.ReduceGrads | src/training/communicator.h:155-157 | ignores root and has exactly the effect of AllReduceGrads |
| Communicator.DefaultCommunicator.PushParams | src/training/communicator.h:159-171 | params[idx] becomes replica idx's values on [pos, pos + length of params[idx]); the replicas are unchanged |
| Communicator.DefaultCommunicator.PullParams | src/training/communicator.h:173-185 | every replica's values take params[idx] over the start of shard idx; the gradients are unchanged |
| Communicator.DefaultCommunicator.SwapParams | src/training/communicator.h:187-210 | aborts, changing nothing, exactly when there are fewer than two replicas; otherwise every replica takes the old params[idx] on shard idx and params[idx] takes the last replica's old shard |
| Matrix.TMatrix.Empty | src/gpu/mblas/matrix.h:27-33 | the default constructor yields the empty state: no buffer and rows = cols = arrSize = 0 |
| Matrix.TMatrix.Sized | src/gpu/mblas/matrix.h:35-46 | Rows = rows, Cols = cols, arrSize = rows * cols, and a fresh buffer of that length, all zero when zero is set |
| Matrix.TMatrix.Move | src/gpu/mblas/matrix.h:48-52 | any matrix can be moved: the new matrix takes over its four fields, and with them its capacity invariant, whether that holds or not; the moved-from matrix is left empty |
| Matrix.TMatrix.Copy | src/gpu/mblas/matrix.h:54-60 | same shape, a fresh buffer with a copy of the source's buffer, and arrSize = the source's size(); the capacity invariant holds exactly when the source's shape fits its buffer |
| Matrix.TMatrix.Rows | src/gpu/mblas/matrix.h:67-69 | Rows() returns rows_ |
| Matrix.TMatrix.Cols | src/gpu/mblas/matrix.h:71-73 | Cols() returns cols_ |
| Matrix.TMatrix.Size | src/gpu/mblas/matrix.h:136-139 | size() is cols * rows, the count the shape addresses, not the capacity; it is 0 exactly when a dimension is 0, and for a valid matrix whose shape fits the capacity it lies inside the buffer |
| Matrix.TMatrix.Resize | src/gpu/mblas/matrix.h:75-97 | the shape becomes r x c and always fits the capacity, which never shrinks. With no buffer, exactly r * c elements are allocated. When r * c exceeds the capacity, a fresh buffer of r * c elements holds the old size() elements at its front. Otherwise the buffer, its contents and the capacity are kept |
| Matrix.TMatrix.Reshape | src/gpu/mblas/matrix.h:99-102 | only rows and cols change; the buffer and capacity are untouched, with no capacity check |
| Matrix.TMatrix.Clear | src/gpu/mblas/matrix.h:120-126 | the buffer is released, and the matrix is in the same empty state as a default-constructed one |
| Matrix.TMatrix.Swap | src/gpu/mblas/matrix.h:141-147 | all four fields are exchanged with the other matrix |
| Matrix.SwapTwice | src/gpu/mblas/matrix.h:141-147 | swapping twice leaves both matrices exactly as they were |
| NodeShapes.TransposeNewShape | src/graph/node_operators_unary.h:639-649 | aborts exactly when the axes count differs from the rank; otherwise output dimension i is input dimension axes[i] |
| NodeShapes.InverseAxes | src/graph/node_operators_unary.h:624-628 | axesBw_ holds, for every axis value, the last position where it occurs in axes, and 0 for values that never occur |
| NodeShapes.BackwardAxesInverse | src/graph/node_operators_unary.h:624-628 | for a permutation, axesBw_[axes[i]] = i and axes[axesBw_[j]] = j: axesBw_ is the inverse permutation |
| NodeShapes.PermutationCovers | src/graph/node_operators_unary.h:624-628 | n distinct axes in [0, n) name every axis, so axesBw_ is written at every position |
| NodeShapes.TransposeRoundTrip | src/graph/node_operators_unary.h:624-636 | permuting the output shape by axesBw_ gives back the input shape, and so does the opposite order |
| NodeShapes.CollapseAxis | src/graph/node_operators_unary.h:431-437 | the Sum, Mean and Step output shape is the input shape with the normalised axis set to 1 and every other dimension unchanged |
| NodeShapes.CollapseElements | src/graph/node_operators_unary.h:484-489 | collapsing an axis divides the element count by that axis's dimension |
| NodeShapes.MeanDivisorIsAxisSize | src/graph/node_operators_unary.h:470 | Mean's divisor `left`, input elements over output elements, is exactly the size of the collapsed axis |
| NodeShapes.StepOffsetIsSliceStart | src/graph/node_operators_unary.h:778 | when the dimensions before the axis are 1, step * outputElements * sizeof(float) is step row-major strides of the axis, in bytes |
| NodeShapes.PoolingShape | src/graph/node_operators_unary.h:902-910 | the masked-pooling output shape has rank 3 and keeps the batch and word dimensions |
| NodeShapes.PoolingIsCeil | src/graph/node_operators_unary.h:907-908 | for a non-negative sentence length cols, the pooled length is ceil(cols / width) |
| NodeShapes.PoolingEvenEmpty | src/graph/node_operators_unary.h:907-908 | with isEven over an empty sentence dimension and width > 1, the pooled length is 1 where the ceiling is 0 |
| NodeShapes.ElementsAppend | src/graph/node_operators_unary.h:778 | the element count of a concatenation of shapes is the product of their element counts |
| NodeIdentity.MixParams | src/graph/node_operators_unary.h:651-659 | the hash_combine loop over the axes leaves the seed folded with every axis, in order |
| NodeIdentity.HashedNode.Hash | src/graph/node_operators_unary.h:45-51 | hash_ is computed and stored only while it is 0, and otherwise returned unchanged; every call returns the node's hash |
| NodeIdentity.EqualAsWritten | src/graph/node_operators_unary.h:849-858 | equal as written holds exactly for structurally equal nodes, and also for Shift nodes that differ only in padValue_ |
| NodeIdentity.Equal | src/graph/node_operators_unary.h:53-62 | equal holds if and only if the base nodes are equal, the kinds match and every parameter matches |
| NodeIdentity.EqualImpliesSameHash | src/graph/node_operators_unary.h:45-62 | nodes that are equal have the same hash, whatever the base hash and mixing functions |
| NodeIdentity.AsWrittenAgreesOffShift | src/graph/node_operators_unary.h:807-818 | unless both nodes are Shift nodes, equal as written agrees with the corrected equal |
| NodeIdentity.ShiftEqualIgnoresPad | src/graph/node_operators_unary.h:838-858 | two Shift nodes that differ only in padValue_ are equal as written, yet their hashes differ |
| NodeIdentity.AliasNode.constructor | src/graph/node_operators_unary.h:747-750 | a reshape or step node starts with destroy_ false, and its shape is the given shape or the input with the step axis collapsed |
| NodeIdentity.AliasNode.Allocate | src/graph/node_operators_unary.h:766 | an aliasing node reserves 0 bytes |
| NodeIdentity.AliasNode.Val | src/graph/node_operators_unary.h:776-783 | val() is a view of the child's value memory at the node's offset (0 for reshape, the step offset for step), with the node's shape |
| NodeIdentity.AliasNode.Grad | src/graph/node_operators_unary.h:785-792 | grad() is the same view over the child's gradient memory, at the same offset as val() |
| NodeIdentity.StepViewIsSlice | src/graph/node_operators_unary.h:776-792 | a step node over an input whose leading dimensions are 1 starts at the first element of slice `step` along the axis |
| AddKernel.AllEqualFrom | src/tensors/cpu/add.h:24-27 | the `same` flag is true if and only if the initial condition holds and every input has the given element count |
| AddKernel.PadTo | src/tensors/cpu/add.h:29 | a shape held as a fixed-rank shape is left-padded with dimensions of size 1 up to the rank, and keeps its own dimensions at the end |
| AddKernel.PadKeepsElements | src/tensors/cpu/add.h:29 | padding a shape with 1s keeps its element count |
| AddKernel.SameFixedShapeMeaning | src/tensors/cpu/add.h:118 | shapes that compare equal as fixed-rank shapes have the same element count, and shapes of equal rank compare equal if and only if they are equal |
| AddKernel.LowerRankMatches | src/tensors/cpu/add.h:118 | an input of shape [4] compares equal to an out of shape [1, 4], although the two shape lists differ |
| AddKernel.AnyShapeDiffers | src/tensors/cpu/add.h:116-118 | the `broadcast` flag is true if and only if some input's shape, padded with 1s to out's rank or out's padded to its, differs from out's |
| AddKernel.Repeats | src/tensors/cpu/add.h:29-32 | len[i] = full[i] / out[i] with C++ int division, for every axis |
| AddKernel.RepeatsExact | src/tensors/cpu/add.h:29-32 | when out broadcasts into full, len[i] * out[i] = full[i]: len counts the repeats exactly |
| AddKernel.GAddEqual | src/tensors/cpu/add.h:45-66 | every out[i] with i < elements gains exactly scale * functor at i (at the broadcast indices when broadcast is set); the rest of out is unchanged |
| AddKernel.ReduceRowsLeading | src/tensors/cpu/add.h:74-75 | for a positive shape, rows = elements / last dimension is the product of the leading dimensions, at least 1 |
| AddKernel.ReduceOverrunsOut | src/tensors/cpu/add.h:111-113 | out [1, 1] against full [3, 4] takes the reduce path, which walks 3 rows while out has 1 element |
| AddKernel.ReduceRowsMatchCollapsedOut | src/tensors/cpu/add.h:74-75 | when out is full with the last axis collapsed, the reduce loop's row count is exactly out's element count |
| AddKernel.GAddReduce | src/tensors/cpu/add.h:68-98 | every out[j] with j < rows gains exactly scale * the sum of row j's cols terms; the rest of out is unchanged |
| AddKernel.RowSumsAddUp | src/tensors/cpu/add.h:81-97 | the row sums added to out together are the sum of the terms over the whole rows * cols broadcast shape |
| AddKernel.SumTermsSplit | src/tensors/cpu/add.h:84-85 | a running sum over a run of indices splits into the sums over two consecutive runs |
| AddKernel.GAddGeneric | src/tensors/cpu/add.h:18-43 | every out[i] with i < elements gains exactly scale * (the functor at i when all element counts agree, else loops over len); the rest of out is unchanged |
| AddKernel.Dispatch | src/tensors/cpu/add.h:111-122 | reduce if and only if full's last dimension is not 1 and out's is; otherwise gAddEqual if and only if out's shape is full, broadcasting if and only if some input's fixed-rank shape differs from out's; otherwise gAddGeneric |
| AddKernel.Add | src/tensors/cpu/add.h:100-123 | the path taken follows Dispatch's three conditions, and on the equal path the broadcast flag holds if and only if some input's fixed-rank shape differs from out's; on every path out is only added to: each covered element gains scale times its term, and the others are unchanged |

## Left out

- The `std::thread` spawn and join in `foreach`: the workers run one after another. Their writes are to disjoint shards, as `Sharding.ShardsDisjoint` proves.
- The float `ceil(total / (float)n)` is modelled as integer ceiling division.
- Tensor values and the add kernels' `scale` are integers, not floats. Float rounding and NaN are not modelled.
- The graphs behind each replica are not modelled. Each replica is reduced to its value and gradient vectors.
- The `TensorAllocator` reservation in `init` is left out. The scratch buffers are plain value sequences.
- `IMPIWrapper`, the MPI enums and macros, `bCast`, `createCommunicator`, `initMPI` and `finalizeMPI` are transport code that is not part of this model.
- Communicator.DefaultCommunicator: the replica count and the vector length are fixed at construction. The source re-reads the length from the first graph's parameters on every call, and `init` sizes the scratch buffers only on its first call. A parameter vector that changes length between calls, which would leave scratch buffers sized for the old length, is not represented.
- Communicator.DefaultCommunicator.constructor: the abort on a non-null MPI transport is a precondition, not a modelled abort.
- Communicator.DefaultCommunicator.PullParams: requires every params[idx] to fit inside shard idx. Longer buffers would make workers write overlapping ranges concurrently, which the sequential model cannot represent.
- Communicator.DefaultCommunicator.SwapParams: requires every params[idx] to fit inside shard idx, for the same reason.
- Communicator.DefaultCommunicator.PushParams: requires every params[idx] to stay inside the vector from shard idx's start.
- Communicator.ScatterShard and Communicator.GatherShard slice the clipped shard length, not the source's unclipped `shardSize`; see Findings.
- Matrix: `size_t` overflow of `rows * cols` is not modelled, because integers are unbounded.
- Matrix: element values are `int`. `Debug`, `color`, `type`, the destructor and the raw `data()` accessors are left out.
- Matrix.TMatrix.Resize: requires the capacity invariant, so it excludes any matrix whose recorded capacity exceeds its buffer. A `Copy` of a matrix reshaped past its buffer is such a matrix, and the source still resizes it; within capacity it only sets `rows_` and `cols_`. When the buffer grows, it also requires the old shape to fit both the old buffer and the new size. The source copies `size()` elements without checking, which a `Reshape` past the capacity can break.
- Matrix.TMatrix.Copy: requires the source matrix to have a buffer, because the source dereferences it.
- The floating-point forward and backward formulas of the unary nodes, and the kernels they call, are left out as float numerics. These include `TransposeND`, `Shift`, `SoftmaxGrad`, `PoolingWithMaskingForward` and `PoolingWithMaskingBackward`.
- The CUDNN `PoolingOp` wrapper around a foreign library is left out.
- `NaryNodeOp::equal` and `NaryNodeOp::hash` are not part of this model. Everything they look at is summarised by one `base` value and a caller-supplied base hash.
- `util::hash_combine` is a caller-supplied mixing function.
- Node kinds without their own `hash` and `equal` (sigmoid, tanh, ReLU and the like) are not modelled.
- `init_dependent` and `set_zero_adjoint` of the aliasing nodes only forward to the child node and are left out.
- NodeShapes.CollapseAxis: takes the axis already normalised. `Shape::axis` is not part of this model.
- NodeShapes.StepOffsetIsSliceStart: the `size_t` conversion of a negative step offset is not modelled. The offset is an unbounded integer.
- NodeShapes.TransposeNewShape: requires every axis to name an input dimension when the counts agree. The source indexes the shape with them unchecked.
- NodeShapes.PoolingShape: requires a rank of at least 3 and width > 0. The source indexes dimension 2 and divides by width unchecked. The width requirement excludes negative widths as well as 0, so C++ truncating division by a negative width is not modelled.
- NodeIdentity.AliasNode.Val: a view is summarised as offset, byte size and shape. The step view keeps the child's full byte size, as in the source.
- Node `Forward`, `Backward` and `Free` of the aliasing nodes are methods with empty bodies and no `modifies`, so they change nothing. They carry no contract to list.
- `Shape::broadcast`, `Shape::bindex`, `dims` and `functional::loops` are not part of this model. The broadcast shape `full` is a parameter, and the other three are caller-supplied functions.
- AddKernel.GAddReduce: requires full's dimensions to be positive and rows to fit in out. The source divides by full's last dimension. The requirement also excludes a zero or negative leading dimension, where the source's row count is 0 or less and its loop adds nothing. It writes `out[j]` for every row of full, which overruns `out` in the case shown under Findings.
- AddKernel.AnyShapeDiffers: functional/shape.h is not part of this model. The fixed-rank comparison is modelled as padding both shapes with leading 1s to their common rank. Shapes of rank above `functional::Shape::size()` are not represented.
- AddKernel.GAddGeneric: requires out's rank to equal full's and out's dimensions to be non-zero. The source's fixed-rank `functional::Shape` pads with 1s and divides by out's dimensions.
- The variadic input tensors of `Add` are a list of shapes together with a functor over one index per input.

## Findings

| source | as written | input that shows it | evidently intended | confidence | as-written member | corrected member |
|---|---|---|---|---|---|---|
| src/training/communicator.h:106 | the scatterReduce and allGather workers slice `shardSize` elements from every shard's start (also lines 112 and 132), although `foreach` hands out shards clipped to what remains and `init` sizes the scratch buffers to the clipped length | 5 elements on 2 replicas: shard 1 is [3, 5), but it is sliced as [3, 6), one element past the vector and past its 2-element scratch buffer | slice each shard's clipped length, as `foreach` and `init` compute it | high, not executed | Sharding.UnclippedSliceOverruns | Communicator.ScatterShard |
| src/tensors/cpu/add.h:111-113 | Add takes the reduce path whenever full is not 1 along the last axis and out is. gAddReduce then writes `out[j]` for every one of full's elements / full's last dimension rows (lines 74 and 96) | out [1, 1] and an input [3, 4], so full is [3, 4]: the reduce path writes out[0], out[1] and out[2], and out has 1 element | take the reduce path only when out is full with the last axis collapsed, the case the commented-out `m = full.elements() / length` at line 112 has in mind; otherwise take gAddGeneric | medium, not executed | AddKernel.ReduceOverrunsOut | AddKernel.GAddReduce |
| src/graph/node_operators_unary.h:849-858 | `ShiftNodeOp::equal` compares `shift_` but not `padValue_`, while `hash` mixes `padValue_` in | two Shift nodes on the same input with offsets [1] and pad values 0 and 1 | equal also compares `padValue_`, so that equal nodes always hash alike | medium, not executed | NodeIdentity.ShiftEqualIgnoresPad | NodeIdentity.Equal |
