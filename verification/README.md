# runD, verified

A Dafny model of the parts of runD on which its promise rests, that one computation gives the same
bits on every backend, and proofs of what those parts guarantee. Each module follows one component:
code that changes state is a class or a method with loops, proved against a specification function;
expressions are functions; concurrency is a machine whose steps are single reads and writes of shared
fields. Machine integers are written out: `u32`, `u64` and `u128` are ranges; where a value can wrap,
saturate or be cut off the model does the same, and where the model computes without bound a lemma says
that the source's words hold the values (`StepIsExact`, `ShiftInFits`, `RatioFits`, `RescaledFits`).

| module | component |
|---|---|
| `StorageModel`, `StorageBudget`, `StorageClient` | hierarchical storage budget: an abstract transition system, the classes that refine it, and whole programs over their objects |
| `WorkerPool` | built-in worker pool: caller, pool threads and destructor as interleaved steps |
| `CounterRandom` | counter-based random numbers |
| `Balanced` | balanced contiguous partitioner |
| `Liveness` | liveness sweep that sizes the registers of a compute program |
| `FixedPoint`, `FixedLane` | fixed-point arithmetic: scalar forms and square roots; vector forms and their agreement with the scalar ones |
| `FixedRounding` | rounding, narrowing and quantising between formats |
| `FoldGraph`, `FoldMeaning`, `FoldValidation` | fixed binary reduction tree: edge count and generator; what each fold comes to; the validators, the builder and the interpreter |
| `StrictFloat` | sticky shift, and IEEE 754 words taken apart and put together (sections 3.4 and 3.5 of IEEE 754-2019) |
| `RowMax`, `Softmax`, `SoftmaxShape` | row maximum and softmax, four lanes at a time; the law of the weights and of the outputs |
| `Fnv` | byte hash and its fast paths |
| `NumericEvidence` | text codec of numeric evidence |
| `Words` | machine words, division lemmas and bitwise operators the others share |

Nine places where the code does not do what one might expect are stated as theorems with their exact
condition: refunds can outnumber reservations, because partitioning creates a handle without counting
a reservation (`RefundsAgainstReservations`); the pool's strided index is 32 bits wide, so a Run that
returns has invoked every partition exactly once exactly when partition count and width together are at
most 2^32 (`ExactlyOnceIff`), and a Run ends exactly when the count and the largest power of two that
divides the width are (`RunTerminates`, `EndlessRunNeverReturns`), so that counts between the two
limits do return having repeated a partition (`WrappedRunCanReturn`; `ThreeThreadsRepeat` is one such
run); `below` is exactly uniform over the 2^64 draws exactly when n divides 2^64, because a rejected
draw takes the value of a later one (`BelowUniformIff`); the partitioner's target is the fair
share exactly when its sum fits a word (`TargetIsFairShareIff`), and an instance shows the unbalanced
plan that follows otherwise (`WrappedTargetUnbalances`), within a bound that holds for every input
(`BoundOnAnyTotal`); the edge count of the largest 32-bit count is zero (`EdgeCountExactIff`); the
vector multiply-add differs from the scalar one by one unit exactly when both factors are -1 and the
addend is negative (`LaneMulAddAgreesIff`); the hash of a complete row shows every change of one value
exactly when that is the last one, because the left operand of the combining step can be lost
(`HashShowsIff`); and a softmax weight falls with the distance from the maximum for one unit only and
then starts again, so that one logit weighs no less than another exactly when it is no deeper in that
sense (`WeightOrderIff`, with the row `WideRowMisorders` that a lower logit wins).

`dafny verify dfyconfig.toml` checks the whole project.

## Model

| member | source | states |
|---|---|---|
| StorageModel.StepKeepsInvariant | node/src/storage.cpp:59-114 | Every child, reserve, partition, commit and release, accepted or refused, keeps the books: at every node the three byte counters are the sums over the live handles below it, and allocated plus reserved stays within capacity |
| StorageModel.EveryRunBalances | node/src/storage.cpp:118-317 | The same holds after any sequence of operations from a fresh budget |
| StorageModel.RefusalChangesOnlyRejections | node/src/storage.cpp:53-57 | A refused operation changes nothing but the rejection counters along the chain of the node it was asked of |
| StorageModel.ReserveAdmission | node/src/storage.cpp:59-67 | A reservation is granted if and only if, at the node and each ancestor, outstanding and committed charges leave room for it |
| StorageModel.CommitAdmission | node/src/storage.cpp:273-293 | A commit is accepted if and only if it fits its own handle and no ancestor's physical sum overflows; capacity needs no second look |
| StorageModel.ChildAdmission | node/src/storage.cpp:146-160 | A child is accepted if and only if its parent exists and 0 < capacity <= the parent's; it is then a new node under that parent with the capacity asked for, and nothing is charged |
| StorageModel.ChildKeepsItsCapacity | node/src/storage.cpp:146-177 | In every run, reserved plus allocated below a child never exceeds the capacity its creation asked for, and its parent stays the one asked of |
| StorageModel.PartitionAdmission | node/src/storage.cpp:259-271 | A part is given if and only if the pending handle has that many bytes; the part then holds exactly the bytes asked for, the handle that many less, and each can commit exactly up to what it holds |
| StorageModel.HandleIsItsJournal | node/src/storage.cpp:162-317 | In every run each handle holds the bytes it was created with less those given to parts of it, or the usage it committed, or is released, whatever the other handles did |
| StorageModel.StepIsExact | node/src/storage.cpp:76-114 | No counter addition or subtraction of any step ever wraps, and each step has exactly its effect on the nodes of the chain |
| StorageModel.DrainedSiteIsEmpty | node/src/storage.cpp:103-114 | Once every handle below a node is released its three byte counters are zero |
| StorageModel.PeaksAreHistoricalMaxima | node/src/storage.cpp:79-98 | Over any run each of the four peaks is exactly the largest value its quantity ever had |
| StorageModel.RefundsAgainstReservations | node/src/storage.cpp:259-271 | Refunds stay within reservations if and only if at least as many handles are live below the node as were partitioned off there, or the reservation count has saturated; partitions add handles without counting |
| StorageModel.RefundsCanExceedReservations | node/src/storage.cpp:112-112 | A run in which the refund count exceeds the reservation count |
| StorageModel.TicketsAccounted | node/src/storage.cpp:259-317 | Grants plus partitions equal live handles plus refunds, at every node |
| StorageBudget.Hierarchy.AdmitsBytesChain | node/src/storage.cpp:168-174 | The walk to the root answers whether every node of the chain admits the bytes |
| StorageBudget.Hierarchy.ReserveChain | node/src/storage.cpp:76-85 | The walk applies the reservation to each node of the chain once and to no other |
| StorageBudget.Hierarchy.CommitChain | node/src/storage.cpp:87-101 | The same for a commit |
| StorageBudget.Hierarchy.RefundChain | node/src/storage.cpp:103-114 | The same for a refund |
| StorageBudget.Budget.Create | node/src/storage.cpp:118-131 | A new budget shows a fresh root, or is invalid for capacity zero |
| StorageBudget.Budget.Child | node/src/storage.cpp:146-160 | The objects take the abstract child step; the new node has this node as parent and the capacity asked for, joins the others, and every handle stays as it was; refusals change nothing |
| StorageBudget.Budget.Reserve | node/src/storage.cpp:162-177 | The objects take the abstract reserve step; the handle returned carries its outcome, and the bytes asked for if granted, under a ticket nobody had, and all other handles and nodes stay as they were |
| StorageBudget.Budget.Report | node/src/storage.cpp:179-201 | The report shows the node's counters, and what it calls available never wraps |
| StorageBudget.Reservation.Partition | node/src/storage.cpp:259-271 | The objects take the abstract partition step; the part holds the bytes asked for under a ticket of its own, this handle holds that many less, and all other handles and nodes stay as they were |
| StorageBudget.Reservation.Commit | node/src/storage.cpp:273-293 | The objects take the abstract commit step, once per handle, and the handle then holds this usage; no handle changes its ticket, and a refusal changes none |
| StorageBudget.Reservation.Release | node/src/storage.cpp:303-317 | The objects take the abstract release step; the handle is empty, nobody carries its ticket, and all others and every node stay |
| StorageBudget.Reservation.Refund | node/src/storage.cpp:295-301 | Refund is release with a status, with the same effect on everybody else, and refunding an empty handle is refused |
| StorageBudget.Reservation.Moved | node/src/storage.cpp:212-220 | Moving hands the ticket to the new object and empties the old one; no charge and no other handle changes |
| StorageBudget.Reservation.Assign | node/src/storage.cpp:222-237 | Assigning releases what the target held, then moves, within one hierarchy or across two; both stay valid and every other handle keeps its ticket; assigning to itself does nothing |
| StorageClient.Obey | node/src/storage.cpp:118-317 | Each call on a program's budgets and handles, granted or refused, has exactly the effect its command has on the abstract system, and every object then shows its part of it |
| StorageClient.PlayIsRun | node/src/storage.cpp:118-317 | What a program's commands come to is a run of the abstract system, so what is proved of runs holds of programs |
| StorageClient.Perform | node/src/storage.cpp:118-317 | After any program of child, reserve, partition, commit, move, assign and release over any of its budgets and handles, the objects show exactly what its commands come to |
| StorageClient.ReleaseAll | node/src/storage.cpp:303-317 | Releasing every handle there is, whatever each holds, leaves no byte reserved, allocated or physical at any node |
| StorageClient.Lifetime | node/src/storage.cpp:118-317 | Any such program and the release of what it left end with zero bytes at every node, in the very state that the run of its commands and those releases reaches |
| WorkerPool.StepKeepsInv | node/src/runtime/backend.cpp:40-132 | Every step of every thread keeps the pool's invariant |
| WorkerPool.EveryScheduleKeepsInv | node/src/runtime/backend.cpp:64-132 | So does every schedule from the initial pool |
| WorkerPool.RunInvokesEachPartitionOnce | node/src/runtime/backend.cpp:64-95 | When Run is about to return, in any interleaving, and count plus width is at most 2^32, each partition was invoked exactly once by thread index mod width with this Run's task, every thread has left, each statistics slot is exact, and the result is true exactly when nothing threw |
| WorkerPool.ExactlyOnceIff | node/src/runtime/backend.cpp:113-125 | A Run that comes to return has invoked every partition exactly once if and only if count plus width is at most 2^32 |
| WorkerPool.WrappedRunInvokesTwice | node/src/runtime/backend.cpp:116-117 | Beyond that, if it returns, partition count + width - 1 - 2^32 was invoked at least twice |
| WorkerPool.RunReportsThrows | node/src/runtime/backend.cpp:84-95 | Within that limit or not, when Run is about to return every thread has left and the result is true exactly when no invocation threw |
| WorkerPool.WorkersReadTheCurrentJob | node/src/runtime/backend.cpp:97-132 | A working thread only ever sees the task and count of the Run in progress |
| WorkerPool.RunNeverBlocks | node/src/runtime/backend.cpp:84-92 | Until Run returns some thread can move, without relying on a wake-up before `live` is zero |
| WorkerPool.CloseNeverBlocks | node/src/runtime/backend.cpp:40-49 | The destructor can always proceed until all threads have exited |
| WorkerPool.CloseTerminates | node/src/runtime/backend.cpp:40-49 | However the threads are scheduled, the destructor and all threads are through within four steps for each thread |
| WorkerPool.RunTerminates | node/src/runtime/backend.cpp:64-132 | However the threads are scheduled, a Run ends within an explicit number of steps if the count and the largest power of two dividing the width are together at most 2^32 |
| WorkerPool.EndlessRunNeverReturns | node/src/runtime/backend.cpp:116-117 | Otherwise it never comes to return |
| WorkerPool.JobCanFinish | node/src/runtime/backend.cpp:64-95 | From every idle pool that any schedule reaches, every job whose Run ends has a schedule on which it comes to return |
| WorkerPool.WrappedRunCanReturn | node/src/runtime/backend.cpp:113-125 | For every width, each count between the limit of exactly-once and the limit of ending has a Run that returns with a partition invoked twice |
| WorkerPool.ThreeThreadsRepeat | node/src/runtime/backend.cpp:116-117 | Three threads and 2^32 - 1 partitions: a Run that returns having invoked partition 1 twice |
| CounterRandom.DrawBijective | node/src/host/random.cpp:11-40 | Draw to word is a bijection on 64-bit words, with an explicit inverse |
| CounterRandom.IdBijective | node/src/host/random.cpp:11-40 | Under one seed and at one draw, stream to word is a bijection too, with an explicit inverse |
| CounterRandom.StreamsDiffer | node/src/host/random.cpp:37-40 | Two streams that differ in the seed alone or the id alone never give the same word at the same draw |
| CounterRandom.ThresholdIsResidue | node/src/host/random.cpp:51-51 | The threshold is 2^64 modulo n |
| CounterRandom.RejectionsBounded | node/src/host/random.cpp:53-59 | At most 2^64 mod n consecutive draws can be rejected |
| CounterRandom.Below | node/src/host/random.cpp:46-60 | The loop ends after at most (2^64 mod n) + 1 draws with the residue of the first accepted word |
| CounterRandom.Range | node/src/host/random.cpp:62-70 | The result lies in [lower, upper), without overflow; an empty range gives its lower end |
| CounterRandom.AcceptedDrawsAreFair | node/src/host/random.cpp:51-57 | Of the 2^64 draws those accepted at once reduce to each residue equally often, 2^64 / n times |
| CounterRandom.BelowIsFair | node/src/host/random.cpp:46-60 | Over all 2^64 draws `below` returns each residue at least 2^64 / n times and at most 2^64 mod n times more |
| CounterRandom.BelowUniformIff | node/src/host/random.cpp:46-60 | It returns each residue equally often if and only if n divides 2^64 |
| CounterRandom.FillBytes | node/src/host/random.cpp:77-90 | Byte i of the buffer is byte i mod 8 of block i / 8 |
| CounterRandom.BlockIsWord | node/src/host/random.cpp:77-90 | The eight bytes of a block make up its word, least significant first |
| Balanced.BuildBalancedPartitions | kernel/src/schedule/planner/balanced.cpp:10-91 | Fails exactly on invalid input; otherwise the partitions are non-empty, contiguous, numbered, cover all packets, end at the greedy cuts, and the widest is reported |
| Balanced.Fill | kernel/src/schedule/planner/balanced.cpp:46-56 | The inner loop stops at the first end that is heavy enough or leaves one packet per remaining partition |
| Balanced.TargetIsFairShareIff | kernel/src/schedule/planner/balanced.cpp:43-56 | The target is the fair share rounded up if and only if its sum does not wrap; when it wraps the next partition is a single packet |
| Balanced.PartsFit | kernel/src/schedule/planner/balanced.cpp:40-60 | From any cut on, a fair share for the remaining partitions bounds each of them by that share plus a packet, less one, and the work not seen |
| Balanced.WrappedPartsFit | kernel/src/schedule/planner/balanced.cpp:43-56 | While targets wrap at most every second partition is lost to a single packet, so half as many fair shares still cover the rest |
| Balanced.BoundOnAnyTotal | kernel/src/schedule/planner/balanced.cpp:34-60 | For every input: each partition carries at most ceil(seen / ceil(P / 2)) + heaviest packet - 1 and the work the 64-bit total could not hold |
| Balanced.UnderThriceAnyPlan | kernel/src/schedule/planner/balanced.cpp:10-91 | For every input: less than three times the busiest worker of any assignment of packets to as many workers, and the work the 64-bit total could not hold |
| Balanced.BalancedBound | kernel/src/schedule/planner/balanced.cpp:34-60 | For every input: each partition carries at most ceil(total / P) + heaviest packet - 1 if total + P - 1 fits a word, and otherwise at most the bound of BoundOnAnyTotal |
| Balanced.UnderTwiceAnyPlan | kernel/src/schedule/planner/balanced.cpp:10-91 | For every input: less than twice the busiest worker of any assignment of packets to as many workers if that sum fits, and otherwise less than three times and the unseen work |
| Balanced.WrappedTargetUnbalances | kernel/src/schedule/planner/balanced.cpp:44-45 | When the target sum wraps the bound fails: an instance |
| Liveness.Scan | kernel/src/program/compute/metadata.cpp:37-71 | The first loop accepts exactly the programs whose operands are earlier values, and records last uses and counts |
| Liveness.Sweep | kernel/src/program/compute/metadata.cpp:88-104 | The sweep never runs below zero, ends at zero, and its peak is the most words live at any node |
| Liveness.LiveMeansStillUsed | kernel/src/program/compute/metadata.cpp:46-56 | A value is live at a node if and only if it is defined by then and some node from there on uses it |
| Liveness.AnalyzeComputeResources | kernel/src/program/compute/metadata.cpp:25-109 | Accepts exactly the parsed programs of matching scalar, domain and mode in which every operand, by the fields its operation has, is an earlier value and something is written: the underflow, non-zero-final and zero-peak rejections never happen on them; and R registers are enough to run the program if and only if the peak is at most R times four words for fixed point, two for 64-bit lanes and one otherwise |
| Liveness.AdmittedIff | kernel/include/kernel/program/compute/lowering/names.hpp:17-33 | Which mode byte goes with which scalar and domain |
| Liveness.PeakMeansRegisters | kernel/src/program/compute/metadata.cpp:79-107 | Registers suffice in which values needed at one node do not share, where a value is needed while it is being defined or a later node takes it, if and only if the peak is at most their words |
| Liveness.PeakIsRegisterNeed | kernel/src/program/compute/metadata.cpp:88-107 | An allocation without sharing among values live together exists with R registers if and only if the peak is at most R values |
| FixedPoint.ProductMeans | math64/include/math64/fixed/scalar.hpp:90-101 | A scalar product is the product cut off toward zero, with an addend that much more, or the nearest number in range |
| FixedPoint.QuotientMeans | math64/include/math64/fixed/scalar.hpp:102-105 | A scalar quotient is the quotient cut off toward zero or the nearest number in range; by zero it is the end of the dividend's sign, and zero by zero is zero |
| FixedPoint.ReciprocalMeans | math64/include/math64/fixed/scalar.hpp:106-110 | The reciprocal is one over the number in the same sense, and the largest number for zero |
| FixedPoint.IntegerSqrt128 | math64/include/math64/fixed/scalar.hpp:111-125 | The root r of every 128-bit v, r^2 <= v < (r+1)^2, with every intermediate inside 128 bits |
| FixedPoint.UnsignedSqrtWide | math32/include/math32/fixed/sqrt/lane.hpp:8-18 | One lane: the same root for every 64-bit radicand, inside 64 bits |
| FixedPoint.UnsignedSqrt128 | math64/include/math64/fixed/sqrt/lane.hpp:8-18 | And for every 128-bit radicand, inside 128 bits |
| FixedPoint.ScalarSqrt | math64/include/math64/fixed/scalar.hpp:126-130 | The square root at either width; non-positive numbers give zero |
| FixedPoint.LaneSqrt | math32/include/math32/fixed/sqrt/lane.hpp:21-27 | The vector square root is the scalar one |
| FixedPoint.LaneSqrt64 | math64/include/math64/fixed/sqrt/lane.hpp:21-29 | At 64 bits too, although the lane narrows its root without a clamp |
| FixedPoint.SqrtBounds | math64/include/math64/fixed/scalar.hpp:126-130 | For positive x the clamp is not needed, the root is at least x, its square is at most x and the next raw value's exceeds it |
| FixedPoint.SqrtMonotone | math32/include/math32/fixed/scalar.hpp:146-150 | Square root keeps order |
| FixedPoint.RsqrtIsReciprocalOfRoot | math64/include/math64/fixed/scalar.hpp:131-135 | The zero-root case is unreachable for positive numbers |
| FixedLane.HighIsExact | math64/include/math64/fixed/lane.hpp:19-28 | The high word from four partial products is the product shifted down a word; also for the 16-bit limbs of math32 |
| FixedLane.Shift63IsExact | math64/include/math64/fixed/lane.hpp:30-40 | The word from bit 63 up is exact, modulo 2^64 |
| FixedLane.LaneMulIsScalar | math64/include/math64/fixed/lane.hpp:104-107 | Vector multiplication equals the scalar form on all inputs, at both widths |
| FixedLane.ShiftIsTruncation | math32/include/math32/fixed/lane.hpp:14-19 | An arithmetic shift with its correction is division toward zero |
| FixedLane.LaneMulScaledIsScalar | math32/include/math32/fixed/lane.hpp:90-95 | The same for multiplication by a scaled coefficient |
| FixedLane.ScaledProductMeans | math32/include/math32/fixed/scalar.hpp:108-112 | And that is the product cut off toward zero, or the nearest number in range |
| FixedLane.LaneMulAddAgreesIff | math64/include/math64/fixed/lane.hpp:115-119 | Vector and scalar multiply-add agree unless both factors are the minimum and the addend is negative, and then differ by one unit |
| FixedLane.UnsignedDiv | math32/include/math32/fixed/wide/lane.hpp:244-259 | Long division below the top bit gives the quotient by the denominator, or by one when that is zero; shifting the remainder left never loses a bit, whatever the denominator |
| FixedLane.ShiftInFits | math32/include/math32/fixed/wide/lane.hpp:248-256 | A remainder that has taken in fewer bits than are divided shifts within its 64- or 128-bit word |
| FixedLane.LaneDivFixed | math64/include/math64/fixed/lane.hpp:120-137 | Vector division equals the scalar form, zero divisors included |
| FixedLane.LaneRecip | math32/include/math32/fixed/lane.hpp:126-133 | Vector reciprocal equals the scalar form |
| FixedLane.LaneRsqrt | math64/include/math64/fixed/sqrt/lane.hpp:30-33 | Vector reciprocal square root equals the scalar form at both widths |
| FixedRounding.RoundedMonotone | node/include/rund/compute/fixed.hpp:14-19 | What the four roundings mean keeps order, and so is unique |
| FixedRounding.ShiftRounds | node/include/rund/compute/fixed.hpp:121-145 | The rounding shift is exactly truncation, floor, ceiling or nearest-even of the quotient |
| FixedRounding.RatioRounds | node/include/rund/compute/fixed.hpp:63-97 | A ratio is the rational rounded as the mode says and then saturated |
| FixedRounding.RatioFits | node/include/rund/compute/fixed.hpp:63-97 | For 64-bit operands the scaled numerator, the doubled remainder and the rounded quotient all stay inside 128 bits |
| FixedRounding.NarrowMeans | node/include/rund/compute/fixed.hpp:99-119 | Narrowing lands in the format, keeps what fits, and saturates to the nearest end or wraps modulo the width |
| FixedRounding.RescaledFits | node/include/rund/compute/fixed.hpp:222-234 | The 128-bit intermediate never overflows |
| FixedRounding.QuantizeRounds | node/include/rund/compute/fixed.hpp:215-234 | Between any two formats, quantising is the number rounded as the mode says, where it fits the target, and otherwise the nearest end or that number modulo the width |
| FixedRounding.QuantizeMonotone | node/include/rund/compute/fixed.hpp:215-234 | Saturating quantisation keeps order in every mode |
| FixedRounding.WidenAndBack | node/include/rund/compute/fixed.hpp:215-234 | Widening integer and fraction bits and quantising back is the identity, in every mode and with either overflow |
| FoldGraph.FixedBinaryTreeEdgeCount | kernel/src/reduction/fold/graph.cpp:12-18 | The loop computes the wrapping recurrence |
| FoldGraph.TreeEdgesBounds | kernel/src/reduction/fold/graph.cpp:12-18 | The tree over n slots has between n - 1 and n - 1 + ceil(log2 n) edges |
| FoldGraph.LevelsIsCeilLog2 | kernel/src/reduction/graph/build/populate/tree.cpp:11-42 | The number of levels is the logarithm rounded up |
| FoldGraph.EdgeCountExactIff | kernel/src/reduction/fold/graph.cpp:14-16 | The 32-bit count is exact if and only if n is not the largest word |
| FoldGraph.NodeCountMeans | kernel/src/reduction/fold/graph.cpp:26-37 | Zero stands for exactly the counts whose nodes do not fit a word |
| FoldGraph.AppendReductionTree | kernel/src/reduction/graph/build/populate/tree.cpp:5-43 | The generator fills exactly the counted edges, level by level, and the last writes the last slot |
| FoldValidation.BuildFoldGraph | kernel/src/reduction/graph/build.cpp:15-82 | For an integer operation: refused exactly for zero partitions, counts that do not fit and buffers too small that may not grow; otherwise builds the tree, and the check after building never fails |
| FoldValidation.ValidateBuiltFixedBinaryTreeGraph | kernel/src/reduction/graph/validate.cpp:5-38 | Passes exactly the graphs with the counted sizes, the partitions in order, and the edges and nodes of the tree |
| FoldValidation.ValidateFoldGraphWithMarkers | kernel/src/reduction/fold/graph/validate.cpp:7-40 | Accepts exactly the graphs whose partition slots are distinct, whose edges read only slots written before and write new ones, in level order and with the operation's padding, whose last write is the final slot, and whose nodes describe those slots; every other graph is refused with the reason of its first fault |
| FoldValidation.OneReason | kernel/src/reduction/fold/graph/validate.cpp:7-40 | That reason is unique |
| FoldValidation.FoldIgnoresFill | kernel/src/reduction/fold/reduce.cpp:29-58 | The fold of an accepted graph depends on the partition values alone: two scratch fills of any size give the same result, for every operation |
| FoldValidation.TreeAccepted | kernel/src/reduction/fold/graph/validate.cpp:7-40 | Every generated tree is accepted if and only if the scratch holds its slots |
| FoldValidation.FoldGraphReduce | kernel/src/reduction/fold/reduce.cpp:10-70 | Folds exactly when the values match the partitions and the validator accepts the graph within this scratch, and then runs its edges over the placed values, whatever the scratch held before; otherwise the reason is the mismatch or the validator's |
| FoldValidation.ReduceIsTreeFold | kernel/src/reduction/fold/reduce.cpp:37-58 | On the built graph the interpreter computes the tree fold of the values, for every operation |
| FoldValidation.BuildAndReduce | kernel/src/reduction/fold/reduce.cpp:26-70 | Building and then folding any count that fits gives the tree fold, and for all operations but the hash the left-to-right fold: the parity of every bit, a largest or smallest value of the row, or the sum up to the largest word; the hash of a complete row shows every change of its last value |
| FoldMeaning.LeftFoldMeans | kernel/src/reduction/fold/spec/combine.cpp:10-22 | The left-to-right xor has as bit k the parity of the values with bit k set; maximum and minimum are members that bound all others; saturating addition is the smaller of the exact sum and 2^64 - 1 |
| FoldMeaning.FoldUnique | kernel/src/reduction/fold/spec/combine.cpp:10-22 | No other word is that |
| FoldMeaning.OddRowIsPadded | kernel/src/reduction/fold/spec/identity.cpp:27-37 | An odd row folds like the row with zero, the largest word for the minimum or 0xA11CE5 for the hash written behind it |
| FoldMeaning.HashShowsIff | kernel/src/reduction/primitives.hpp:11-21 | Among rows of 2^k values, every change of the value at i shows in the hash if and only if i is the last place; anywhere else two values of some row hash alike |
| FoldMeaning.HashUndone | kernel/src/reduction/primitives.hpp:11-21 | The right operand of a hash can be told from the hash and the left one |
| FoldMeaning.SeedsCollide | kernel/src/reduction/primitives.hpp:11-14 | The left one cannot: two seeds with one right operand that mix to the same word |
| FoldGraph.TreeFoldIsLeftFold | kernel/src/reduction/fold/spec/combine.cpp:10-22 | For xor, maximum, minimum and saturating addition that is the plain left-to-right fold |
| FoldGraph.OperationLaws | kernel/src/reduction/fold/spec/identity.cpp:9-37 | Those four are associative and their padding is neutral |
| StrictFloat.ShortcutIsJam | kernel/src/reduction/strict/round.cpp:9-11 | The shortcut for shifts of 127 and more gives what the shift itself would |
| StrictFloat.ShiftComposes | kernel/src/reduction/strict/round.cpp:5-15 | Shifting by a and then b is shifting by a + b |
| StrictFloat.ShiftMonotone | kernel/src/reduction/strict/round.cpp:5-15 | The sticky shift keeps order |
| StrictFloat.ShiftDecides | kernel/src/reduction/strict/round.cpp:12-14 | Against every even number the shifted value compares as the exact one does |
| StrictFloat.DecodeLosesNothing | kernel/src/reduction/strict/decode.cpp:5-25 | Every finite word is recovered from its sign, exponent and mantissa |
| StrictFloat.ComposeDecodes | kernel/src/reduction/strict/format.cpp:37-42 | Composed fields decode to what they say, infinities and NaNs included |
| StrictFloat.SpecialWordsDecode | kernel/src/reduction/strict/format.cpp:44-50 | Infinity and zero decode as such, with their sign |
| StrictFloat.BitOrderIsNumericOrder | kernel/src/reduction/strict/decode.cpp:5-25 | Among finite words without sign, bit order is the order of the values |
| StrictFloat.KnownWords | kernel/src/reduction/strict/format.cpp:11-35 | One, minus two, the least positive and the largest finite number decode to their sign, exponent and mantissa in both formats |
| RowMax.MaxOf | math32/include/math32/prob/max.hpp:8-48 | The maximum of a row of any length, and below 2^32 the first index that attains it, rows of nothing but the minimum included |
| Softmax.LaneExp2IsScalar | math32/include/math32/nonlinear/exp.hpp:14-41 | The vector exponential is the scalar one |
| Softmax.WeightsAreHeavy | math32/include/math32/prob/kernel.hpp:38-41 | Every weight is at least one half |
| Softmax.WeightSumQ1_31 | math32/include/math32/prob/kernel.hpp:77-93 | Four saturating accumulators and a masked tail give the saturated sum of the row |
| Softmax.SoftmaxApprox | math32/include/math32/prob/softmax.hpp:6-22 | Into the same span or a disjoint one, the output is the softmax of the logits as they were and nothing else changes; a zero sum never happens |
| Softmax.RowSoftmaxUnique | math32/include/math32/prob/kernel.hpp:13-19 | A row has one softmax, so in place and into a disjoint span it is the same |
| SoftmaxShape.WeightAtDepth | math32/include/math32/prob/kernel.hpp:38-41 | For every maximum and logit the weight depends on the distance modulo two units alone, and beyond one unit it is that of the maximum |
| SoftmaxShape.WeightFalls | math32/include/math32/nonlinear/exp.hpp:14-27 | Within the unit the weight falls strictly with every raw unit, from one down to exactly one half, whatever the roundings |
| SoftmaxShape.WeightIsNearExponential | math32/include/math32/nonlinear/exp.hpp:5-27 | There it lies between the sixteenth roots of the powers of two at the sixteenths above and below, to one part in two thousand of the sixteenth power |
| SoftmaxShape.WeightOrderIff | math32/include/math32/prob/kernel.hpp:38-41 | One logit weighs no less than another if and only if it is no deeper |
| SoftmaxShape.OutputIsShare | math32/include/math32/prob/kernel.hpp:58-64 | Every output of a row of two or more is its weight's share of the sum, rounded down |
| SoftmaxShape.OutputsFollowDepth | math32/include/math32/prob/softmax.hpp:6-22 | Of any two stored outputs the less deep is no smaller, equally deep ones are equal, and one a unit deep is half of one at the top, to one raw unit |
| SoftmaxShape.NarrowRowKeepsOrder | math32/include/math32/prob/softmax.hpp:6-22 | While all logits are within one unit of the maximum a larger logit gets no less |
| SoftmaxShape.WideRowMisorders | math32/include/math32/prob/kernel.hpp:38-41 | Beyond that it may: a row in which a lower logit gets more |
| Softmax.SaturatedRowIsZero | math32/include/math32/prob/kernel.hpp:58-64 | A row whose sum saturates has more than 2^31 entries and every output is zero |
| Softmax.SoftmaxMass | math32/include/math32/prob/kernel.hpp:58-64 | Whether or not the sum saturates, the outputs add up to between 2^31 - n and 2^31 |
| Softmax.RowSoftmaxMass | math32/include/math32/prob/softmax.hpp:6-22 | So do the outputs that SoftmaxApprox stores, for every non-empty row |
| Fnv.StepUndone | node/src/hash/fnv.hpp:18-20 | Taking in one byte can be undone: multiplying by the inverse of the prime gives the hash and the byte, xored |
| Fnv.SameByteSameHash | node/src/hash/fnv.hpp:18-20 | The same byte never merges two hashes |
| Fnv.Hasher.Number | node/src/hash/fnv.hpp:22-30 | A number is hashed as its little-endian bytes |
| Fnv.HashBytes | node/src/hash/fnv.hpp:63-69 | The hash of the span's bytes in order |
| Fnv.CopyHash | node/src/hash/fnv.hpp:71-83 | Unless the target begins inside the source, an exact copy and the hash of the bytes as they were |
| Fnv.ZeroHash | node/src/hash/fnv.hpp:85-97 | Repeated squaring gives the hash of n zero bytes, for every n |
| Fnv.TailKeepsApart | node/src/hash/fnv.hpp:18-20 | A common tail leaves two hashes equal if and only if they were |
| Fnv.OneByteAlwaysShows | node/src/hash/fnv.hpp:18-37 | Inputs of equal length that differ in exactly one byte never hash alike |
| Fnv.LittleEndianMeans | node/src/hash/fnv.hpp:22-30 | Those bytes make the number up again |
| NumericEvidence.ValidMeans | node/include/rund/evidence/numeric/contract.hpp:168-200 | Domain by domain, which arithmetic a valid contract may have, and that only fixed point has a policy |
| NumericEvidence.EncodingReads | node/src/evidence/numeric.cpp:254-280 | The text is the header and one line for each key, by name, with the field it stands for |
| NumericEvidence.KnownContractHash | node/tests/contract/evidence/numeric.cpp:12-25 | The strict 64-bit contract hashes to the word its canonical text carries |
| NumericEvidence.DecodeFields | node/src/evidence/numeric.cpp:180-221 | The cursor loop decodes line by line, with the failure of the first line that fails |
| NumericEvidence.Decode | node/src/evidence/numeric.cpp:282-299 | Any failure gives the default contract and its code |
| NumericEvidence.Encode | node/src/evidence/numeric.cpp:254-280 | Eleven lines under the header for accepted evidence, nothing otherwise |
| NumericEvidence.RoundTrip | node/src/evidence/numeric.cpp:254-299 | Decoding the encoding of a valid contract gives the contract back |
| NumericEvidence.DecodeGathers | node/src/evidence/numeric.cpp:104-178 | Lines decode if and only if each is readable and its key new, and each value is stored under its key |
| NumericEvidence.AcceptedIff | node/src/evidence/numeric.cpp:180-221 | A text is accepted if and only if, under the header, each of the eleven keys occurs once with a passing value and nothing else does, the contract is valid and the hash is its own |
| NumericEvidence.LineOrderIsIrrelevant | node/src/evidence/numeric.cpp:188-206 | Rearranging the lines of an accepted text changes nothing |
| NumericEvidence.OneFieldShowsInHash | node/src/evidence/numeric.cpp:71-87 | Changing one field of a contract always changes its hash |
| NumericEvidence.AlteredFieldNeedsNewHash | node/src/evidence/numeric.cpp:180-221 | Two accepted texts whose contracts differ in one field have different hash lines |

## Left out

- BuildFoldGraph: the two strict floating-point operations, unsupported operation codes and the policies they are refused for.
- FoldGraphReduce: arrays are never absent, so the checks for missing ones are not modelled, nor are the variants that allocate the scratch themselves.
- LaneMulScaledIsScalar: coefficients of the 32-bit form are kept below 2^32, as the lanes hold them.
- Worker pool: pools of width zero, early returns of Run for null arguments and for nested use, the start-up handshake, the variant without statistics, what PublishStats copies out, and memory orderings weaker than sequential consistency; waiting is blocking until the value changes.
- Storage budget: allocation failure, and the lifetime of tree nodes nobody refers to any more; each locked operation is one step.
- Random numbers: stream splitting, the 32-bit and floating-point forms, and where the run seed comes from.
- Liveness: operations are grouped by their operand shape, and required input counts and execution metadata are not modelled.
- Fixed point: trigonometric functions and logarithms.
- Softmax: log-sum-exp and cross entropy, and the wide scalar exponential beside the vector one.
- HashShowsIff: rows whose length is not a power of two; some of their places have no complete neighbour to fold with.
- Strict float: mantissa addition and final rounding.
- Numeric evidence: the run identity hash, and the telemetry around evidence.
- Tile planning, requantisation, prepared arrays and buffer transfer statistics: they would add single-expression facts and bookkeeping beside the above.
- Device adapters, shader emission, sessions, files, sockets, clocks and the site: foreign calls.
