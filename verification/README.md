# Verified models of SPU's core algorithms

SPU computes on secret-shared data.  This project models six of its cores in Dafny and proves what
each of them promises.  Every module follows one source file or one part of it; methods and classes
are used where the source works by loops and updates, functions where it computes.

**Two-party gradient-boosted trees** (`experimental/squirrel`).
`Binning` buckets a feature column.  `BinMatVec` multiplies a private 0/1 matrix with a shared vector
packed into polynomial coefficients.  `TreeBuildWorker` keeps the bucket rows and computes gradient
histograms.  `TreeSpec` says what a tree decided by two parties means, independently of how it is
built: who is routed where, and which histogram a node has.  `TreeBuilder` and `TreeTraining` are the
lockstep training of one tree, `TreeInference` and `TreePrediction` the oblivious evaluation,
`Boosting` the loop over all trees, `TruncatedBins` a column too wide for the 16-bit buckets.  The main
results: at every level of every run the parties'
indicators partition the samples kept by both root masks, cached gradients are conserved, every cached
histogram is the direct one although half of them come from subtraction, training goes through exactly
when no summed indicator is empty and every chosen bucket has a threshold, and after training, inference
on a training row that every root mask kept and whose bins fit in 16 bits opens to exactly what training added
to that row's prediction.

**Prefix adders, carry tree, bit interleaving** (`libspu/mpc/ab_api.cc`, `libspu/core/bit_utils`).
`Bits`, `BitInterleave`, `PdepPext`, `BooleanShares`, `PrefixAdders`, `CarryTree`.  Interleaving is a
permutation of the binary digits of bit positions; from that follow the inverses, the agreement of the
one-instruction forms, and the runs the Sklansky adder works on.  Both adders return the sum modulo the
ring size.

**Strided arrays** (`libspu/core/ndarray_ref`, `shape`).
`Shapes`, `NoCopyReshape`, `Views`, `ViewSafety`, `NdArrays`, `NdPadding`, `NdConcat`.  The simple
meaning of an array is its row-major element sequence.  No-copy reshape is proved to succeed exactly when
suitable strides exist; every view reachable from a compact array, under the exact conditions listed below,
stays in its buffer and overlaps itself
only along stride-0 axes; writing a slice changes exactly that slice.

**Parallel block executor** (`libspu/device/executor.cc`).
`Blocks` is the sequential run and the symbol scopes, `Executor` a transition system over the atomic
steps of any number of workers, in which looking up dependencies, waiting, entering a result and notifying are
apart.  Every interleaving runs each operation once, never deadlocks or loses a wake-up, and ends in the table
of the sequential run; notifying without the mutex would lose wake-ups (`Executor.UnlockedGetsStuck`).

**Half precision** (`libspu/core/half.h`).
`HalfRounding`, `HalfArithmetic`, `HalfSums`, `HalfFma`, `HalfConversions`, `HalfRoots`.  Round to nearest,
ties to even, is defined independently of the code (`IsNearest`: no other code is nearer; sections 4.3.1 and
5.4.1 of IEEE 754-2008); the operations are proved to return that for all operands.

**Reduction, chunking, share exchange** (`libspu/core/vectorize.h`, `libspu/core/value.cc`,
`libspu/device/io.cc`).
`Vectorize`, `ValueChunks`, `ShareExchange`, `Sync`.  A received value is accepted exactly when its chunks, in any
order, tile its arrays, and is then the one value they describe.  The exchange is a message protocol over
first-in-first-out links; for any number of parties and any interleaving it delivers the transpose of the
share matrix and cannot get stuck, and after a synchronisation all parties hold the same names, each bound
to its owner's share for that party.

`Arith`, `FiniteSets`, `Ring` and `Wrappers` hold what the others share: non-linear arithmetic, finite sets,
additive shares modulo an arbitrary ring size M >= 2 (so 2^k for every k), and an option type.

## Where the code does less than one would expect

Each of these is kept as in the source and has an exact condition.

- `carry_a2b` checks widths on the way; the checks pass if and only if a closed condition on nbits and k holds
  (`CarryTree.PassesExactly`).  Then, for nbits >= 1, the result is the carry for all operands if and only if
  1 <= k <= nbits; outside that range all-ones operands are a counterexample.  For nbits == 0 it is right
  whatever k is accepted (`CarryTree.CarryA2B`).
- `Binning::Fit` fails not only on an empty sample but also when all values are within 1e-10 of the largest
  double, the initial "last value" (`Binning.BinningModel.Fit`).
- `Binning::Transform` narrows a bin to 16 bits.  A value's stored bin answers every comparison with a threshold
  rightly if and only if its bin is below 65536 (`Binning.TruncationExact`); a training row is decided alike by
  training and inference at every possible split if and only if all its bins are (`TreeInference.RowAgreesExactly`),
  and in a given tree if and only if it was stored on the right side at each decision on its way
  (`TreeInference.RowReachesItsLeaf`, `TreePrediction.TrainingMatchesExactly`).
  `TruncatedBins.TruncationMisroutes` is a run, from fitted thresholds, in which a row is not.
- A node at which one party keeps no sample aborts training if its sums are computed directly; so does a
  chosen bucket without a threshold.  These are the only reasons (`TreeTraining.BuildTree`).
- Leaf sums are taken over the root mask of the party that owns the first feature, not over both masks
  (`TreeTraining.LastBucketIsTotal`).  That comes to the same, for all gradients, if and only if the other party
  keeps every sample of the leaf that the owner keeps (`TreeTraining.LastBucketBothMasks`).
- A slice whose step is at least the length of a longer axis leaves extent 1 with its stride; a later
  broadcast of that axis is right if and only if no growing axis has a stride of its own
  (`Views.BroadcastExact`, `ViewSafety.ThinSliceEscapes`).
- A negative slice start is not refused.  The elements of a forward slice are elements of the array if and only
  if no start is negative (`Views.SliceExact`).  A slice of any view stays in the buffer if and only if its two
  extreme corners do (`ViewSafety.SliceInsideExact`), one of a compact array if and only if the address of its
  start is not negative, so a negative coordinate may be made up for by another
  (`ViewSafety.SliceStaysInside`, `ViewSafety.NegativeStartEscapes`).
- A repeated axis in `reverse` is not refused.  The result is the mirrored array if and only if axes named an
  even number of times have extent 1 or stride 0 and the surplus flips cancel out (`Views.ReverseExact`); on a
  compact array, if and only if repeated axes have extent 1, and exactly then it stays in the buffer
  (`Views.ReverseCompact`, `ViewSafety.ReverseStaysInside`, `ViewSafety.ReverseTwiceEscapes`).
- `transpose` checks the number of axes and that none is repeated, `reverse` that none is too large; an axis out
  of range, for `reverse` a negative one, gets through and is read outside the extents
  (`NdArrays.NdArrayRef.Transpose`, `NdArrays.NdArrayRef.Reverse`).
- `update_slice` copies element by element, so a new value in the same buffer may be overwritten before it is
  read.  The copy is right for every content if and only if that does not happen (`NdArrays.OverlapExact`).
- A parallel task waits only if its operation has an operand; no run reads a missing value if and only if
  every operation that captures values through nested regions has one (`Executor.GuardedExactly`).

## Model

| member | source | states |
|---|---|---|
| `Binning.Scan` | experimental/squirrel/binning.cc:59-96 | The bucketing loop on a sorted sample, with its skipping path: it ends; each threshold is the value at the first position, from the due one on, that differs from the value kept last, and the loop stops short of the allowed number only when no such position is left; when the categories fit they are exactly all categories of the sample |
| `Binning.BinningModel.Fit` | experimental/squirrel/binning.cc:51-111 | Succeeds if and only if the sample is non-empty and not all its values are within 1e-10 of the largest double; then the thresholds are all categories but the first if the categories fit, the quantiles of the sorted sample if not, followed by infinity: strictly increasing sample values, at most nbuckets of them; a failing call changes nothing |
| `Binning.QuantilesSpread` | experimental/squirrel/binning.cc:78-92 | A bin between two quantile thresholds gets at least its share of the samples left, the samples from its lower end on divided by the bins still open, the first bin at least n / nbuckets; neighbouring thresholds differ by 1e-10 or more |
| `Binning.QuantilesUnique` | experimental/squirrel/binning.cc:64-96 | A sample has only one sequence of quantile thresholds, so Fit's result is determined |
| `Binning.BinningModel.Transform` | experimental/squirrel/binning.cc:113-124 | Every value is mapped to its bin, truncated to 16 bits |
| `Binning.LowerBound` | experimental/squirrel/binning.cc:117-120 | The binary search returns the one bin b with threshold[b-1] < v <= threshold[b] |
| `Binning.BinOfUnique` | experimental/squirrel/binning.cc:117-120 | For sorted thresholds a number b is the bin of v if and only if threshold[b-1] < v <= threshold[b] |
| `Binning.FittedBinExists` | experimental/squirrel/binning.cc:105-108 | After Fit every value, however large, has a bin among the thresholds |
| `Binning.BinAtMost` | experimental/squirrel/binning.cc:117-120 | A value is in bin b or below if and only if it does not exceed threshold b |
| `Binning.TruncatedAtMost` | experimental/squirrel/binning.cc:113-124 | The stored 16-bit bin answers the comparison with threshold b rightly if and only if the bin itself is at most b or the stored one is above it |
| `Binning.TruncationExact` | experimental/squirrel/binning.cc:113-124 | All comparisons of a value with thresholds agree with its stored 16-bit bin if and only if the bin is below 65536 |
| `Binning.CategoryBins` | experimental/squirrel/binning.cc:98-106 | In category mode the two smallest categories share bin 0 and each later one has a bin of its own |
| `BinMatVec.GapFits` | experimental/squirrel/bin_matvec_prot.cc:227-234 | The gap of a batch is the power of two g with n * g <= N < 2 * n * g, all entries stay inside the polynomial, and a full batch has gap 1 |
| `BinMatVec.EncodeVectorToPoly` | experimental/squirrel/bin_matvec_prot.cc:596-617 | Entry i of the vector stands at coefficient i times the gap, all other coefficients are zero |
| `BinMatVec.DecodePolyToVector` | experimental/squirrel/bin_matvec_prot.cc:619-640 | Reads entry i back from its coefficient: decoding undoes encoding |
| `BinMatVec.IndexMapper.MapToLoc` | experimental/squirrel/bin_matvec_prot.cc:236-241 | Splits a sample index into an existing ciphertext and the coefficient of its entry within that batch |
| `BinMatVec.MapToLocHits` | experimental/squirrel/bin_matvec_prot.cc:236-241 | MapToLoc points at exactly the coefficient where the encoder put the sample, also in a partial last batch |
| `BinMatVec.MapToLocInjective` | experimental/squirrel/bin_matvec_prot.cc:236-241 | Two samples never share a coefficient |
| `BinMatVec.A2hSend` | experimental/squirrel/bin_matvec_prot.cc:642-692 | What is put on the link, in groups, is the encoding of the whole share, batch by batch and in order |
| `BinMatVec.A2hRecv` | experimental/squirrel/bin_matvec_prot.cc:694-741 | Adding the own encoded share to what was received gives the encoding of the reconstructed vector |
| `BinMatVec.BatchOfSum` | experimental/squirrel/bin_matvec_prot.cc:656-741 | Cutting into batches and adding shares commute |
| `BinMatVec.PickThenSum` | experimental/squirrel/bin_matvec_prot.cc:250-267 | One row of the product: the sum of the vector over the row's columns that the indicator keeps, in whatever order they are visited |
| `BinMatVec.Reshare` | experimental/squirrel/bin_matvec_prot.cc:435-461 | The masked ciphertext and the negated mask are shares of the value |
| `BinMatVec.BinMatVecProtocol` | experimental/squirrel/bin_matvec_prot.h:66-73 | The two results are shares of M * diag(indicator) * (v0 + v1); the protocol fails if and only if a given indicator keeps nothing |
| `TreeBuildWorker.PartyData.RowsPartition` | experimental/squirrel/tree_build_worker.cc:68-100 | The rows of a feature partition the samples: each sample is in a row, no two rows overlap |
| `TreeBuildWorker.PartyData.LeftSetStep` | experimental/squirrel/tree_build_worker.cc:200-223 | The left set of a bucket is that of the bucket before it plus one further, disjoint row |
| `TreeBuildWorker.Worker.BuildMap` | experimental/squirrel/tree_build_worker.cc:68-100 | Succeeds if and only if every column can be binned, and then stores exactly the rows and thresholds of all columns |
| `TreeBuildWorker.Worker.RowsOf` | experimental/squirrel/tree_build_worker.cc:89-96 | Each bucket's row set holds exactly the samples binned into it |
| `TreeBuildWorker.Worker.PotentialLeftIndicator` | experimental/squirrel/tree_build_worker.cc:200-223 | Marks exactly the samples at or below the chosen bucket; the hit-once check never fires, only an index out of range is refused |
| `TreeBuildWorker.Worker.SplitInfo` | experimental/squirrel/tree_build_worker.cc:190-198 | Succeeds if and only if the bucket exists and its feature has that threshold, which it returns |
| `TreeBuildWorker.AccumulateHistogram` | experimental/squirrel/tree_build_worker.cc:225-243 | In place: each bucket becomes the sum of its feature's buckets up to it; other features do not enter |
| `TreeBuildWorker.RunSumIsLeftSum` | experimental/squirrel/tree_build_worker.cc:153-167 | A running sum of row sums is the sum over the left set of the bucket |
| `TreeBuildWorker.OneSide` | experimental/squirrel/tree_build_worker.cc:120-148 | One direction of the joint computation opens to the sums over the owner's left sets, restricted to its indicator |
| `TreeBuildWorker.ComputeGradientSums` | experimental/squirrel/tree_build_worker.cc:102-188 | The shares open to the direct histogram in joint bucket order; fails if and only if one of the indicators keeps nothing |
| `TreeSpec.Run.BothPathsReach` | experimental/squirrel/tree_builder.cc:362-427 | A sample is routed to a node if and only if neither party's own decisions keep it away |
| `TreeSpec.Run.ReachIsNodeOf` | experimental/squirrel/tree_builder.cc:362-427 | At every level a sample is routed to exactly one node |
| `TreeSpec.Run.RightChildVec` | experimental/squirrel/tree_builder.cc:418-420 | Parent minus left child is the gradient vector of the right child |
| `TreeSpec.Run.SkippingIsHarmless` | experimental/squirrel/tree_builder.cc:276-291 | Leaving out the samples that a node's own indicators drop does not change its histogram |
| `TreeSpec.Run.HistogramOfDifference` | experimental/squirrel/tree_builder.cc:300-304 | The histogram of a difference is the difference of the histograms |
| `TreeSpec.Run.LevelConserves` | experimental/squirrel/tree_builder.cc:418-424 | Over a whole level the node vectors add up to the root vector, sample by sample |
| `TreeBuilder.Builder.InitGradients` | experimental/squirrel/tree_builder.cc:430-452 | Leaves exactly the root entry in the caches and the root mask as its indicator |
| `TreeBuilder.Builder.ApplySplit` | experimental/squirrel/tree_builder.cc:370-416 | Replaces the node's indicator by its children's: cut down for the owner of the split, unchanged for the other party; records the split |
| `TreeBuilder.Builder.InstallChildren` | experimental/squirrel/tree_builder.cc:418-424 | Replaces the node's gradients by the left child's and, by subtraction, the right child's |
| `TreeBuilder.Builder.InstallHistograms` | experimental/squirrel/tree_builder.cc:291-311 | Files a left histogram and its sibling's by subtraction and drops the parent's; at the root only files |
| `TreeBuilder.MulArithShareWithPrivateBoolean` | experimental/squirrel/utils.cc:128-158 | The shares open to the shared value where the private bit is 1 and to zero elsewhere |
| `TreeBuilder.UpdateGradients` | experimental/squirrel/tree_builder.cc:241-253 | Both gradient vectors are cut down to the samples that go left |
| `TreeBuilder.SplitHalves` | experimental/squirrel/tree_builder.cc:362-427 | The complete effect of one split on the caches of both parties; fails if and only if the chosen bucket has no threshold |
| `TreeBuilder.SplitNode` | experimental/squirrel/tree_builder.cc:362-427 | Splitting a node keeps the joint invariant: exactly the open nodes are cached, with the right indicators, gradients and records |
| `TreeBuilder.SplitLevel` | experimental/squirrel/tree_builder.cc:348-428 | Splitting a whole level leads from all nodes of one level to all nodes of the next; fails if and only if a chosen bucket has no threshold |
| `TreeBuilder.LeftHistogram` | experimental/squirrel/tree_builder.cc:276-291 | The sums computed for one node under its own indicators are its histogram; fails if and only if an indicator keeps nothing |
| `TreeBuilder.SumLevel` | experimental/squirrel/tree_builder.cc:276-312 | After the loop every node of the level, left or right, has its histogram cached and no other node has; exact condition for an abort |
| `TreeTraining.SamplesPartition` | experimental/squirrel/tree_builder.cc:348-428 | At every level the two parties' indicators meet on a sample at exactly one node, the one it is routed to, if both root masks keep it, and at none otherwise |
| `TreeTraining.CachedGradient` | experimental/squirrel/tree_builder.cc:418-424 | The opened gradient and hessian cached at a node are those of the root for samples routed there and zero for others |
| `TreeTraining.GradientsConserved` | experimental/squirrel/tree_builder.cc:418-424 | The opened gradients cached on a level add up to the root gradient of every sample, and the hessians to its hessian |
| `TreeTraining.CachedHistogram` | experimental/squirrel/tree_builder.cc:276-312 | Every cached histogram entry is the sum of the node's gradients, or hessians, over the owner's left set and root mask |
| `TreeTraining.TrainLevel` | experimental/squirrel/tree_builder.cc:255-346 | One level: histograms of all its nodes, then the splits; goes through exactly when no summed indicator is empty and all splits have thresholds |
| `TreeTraining.LeafSums` | experimental/squirrel/tree_builder.cc:178-191 | Reads every leaf's entry for the last bucket of the first feature |
| `TreeTraining.LastBucketIsTotal` | experimental/squirrel/tree_builder.cc:186-190 | That entry is the sum over the whole leaf, under the root mask of the party that owns the first feature |
| `TreeTraining.LastBucketBothMasks` | experimental/squirrel/tree_builder.cc:186-190 | It is the sum under both root masks, whatever the gradients, if and only if every sample of the leaf that the first feature's owner keeps is kept by the other party too |
| `TreeTraining.ComputeLeafSums` | experimental/squirrel/tree_builder.cc:167-195 | The sums the leaf weights are computed from open to the gradient and hessian sums of the leaves |
| `TreeTraining.InitBoth` | experimental/squirrel/tree_builder.cc:430-452 | Both parties' InitGradients establish the start of the run they describe |
| `TreeTraining.BuildTree` | experimental/squirrel/tree_builder.cc:105-121 | Grows a complete tree from the root, adds its record and weights behind those of older trees, and goes through if and only if every level does |
| `TreeInference.LeafMarks` | experimental/squirrel/tree_builder.cc:469-498 | A leaf is marked if and only if none of the party's own splits leads away from it; fails if and only if a split names a missing feature |
| `TreeInference.ExactlyOneLeaf` | experimental/squirrel/tree_builder.cc:469-498 | For any inputs the marks of the two parties meet in exactly one leaf |
| `TreeInference.MulArithShareWithANDBoolShare` | experimental/squirrel/utils.cc:206-255 | The shares open to the shared value where both parties' bits are 1 and to zero elsewhere |
| `TreeInference.Inference` | experimental/squirrel/tree_builder.cc:454-507 | The result opens to the sum over all trees of the weight of the leaf the input leads to |
| `TreeInference.SplitAgrees` | experimental/squirrel/tree_builder.cc:480-488 | At a recorded split inference sends a training row where training did if and only if the row's 16-bit bin is on the same side of the chosen bucket as its bin |
| `TreeInference.RowAgreesExactly` | experimental/squirrel/tree_builder.cc:480-488 | For a training row every possible split is decided alike in training and inference if and only if all its bins are below 65536 |
| `TreeInference.WrongSide` | experimental/squirrel/tree_builder.cc:480-488 | For a bin from 65536 on it names a split that training and inference decide differently |
| `TreeInference.RowReachesItsLeaf` | experimental/squirrel/tree_builder.cc:454-498 | Inference leads a training row to the leaf that training routed it to if and only if its buckets were stored on the right side at every decision on the way |
| `TreeInference.FittingBinsRouteTruly` | experimental/squirrel/tree_builder.cc:454-498 | Which is so, for every tree, when its bins are below 65536 |
| `TreeInference.RecordsComplement` | experimental/squirrel/tree_builder.cc:379-426 | In the records of a trained tree every split belongs to exactly one party |
| `TruncatedBins.FitRamp` | experimental/squirrel/binning.cc:51-111 | Fit on the samples 0, 1, ..., n - 1, all of them doubles for n up to 2^53, with n buckets keeps every category: thresholds 1, ..., n - 1 and infinity |
| `TruncatedBins.TruncationMisroutes` | experimental/squirrel/binning.cc:113-124 | A run with that column, for each n from 65538 to 2^53, in which the row of the largest sample is trained into one leaf and led to the other |
| `TreePrediction.BatchMulArithShareWithANDBoolShare` | experimental/squirrel/utils.cc:257-280 | Entry i of batch k opens to weight k where both bits of that entry are 1, else to zero |
| `TreePrediction.LayOut` | experimental/squirrel/tree_builder.cc:141-153 | Whatever the order of the map, bit i of leaf k is whether that leaf's indicator keeps sample i |
| `TreePrediction.AddedIsOneLeaf` | experimental/squirrel/tree_builder.cc:155-163 | Of all leaves only the one a sample was routed to adds to its prediction |
| `TreePrediction.UpdatePrediction` | experimental/squirrel/tree_builder.cc:124-165 | Each opened prediction grows by the weight of the sample's leaf if both root masks keep it, and stays otherwise |
| `TreePrediction.TrainingMatchesInference` | experimental/squirrel/tree_builder.cc:454-507 | For a row stored on the right sides, what training adds if it is kept is what inference yields for that tree; a dropped row gets nothing |
| `TreePrediction.TrainingMatchesExactly` | experimental/squirrel/tree_builder.cc:454-507 | For a kept row the two agree whatever the leaf weights if and only if it was stored on the right sides |
| `Boosting.TrainRound` | experimental/squirrel/squirrel_demo_main.cc:316-325 | One round adds one complete tree and moves the prediction of every row whose bins are below 65536 by that tree's term for the row |
| `Boosting.Train` | experimental/squirrel/squirrel_demo_main.cc:316-335 | The training loop goes through if and only if every round does; then the prediction of each row whose bins are below 65536 has grown by the inference terms of the trees that kept the row |
| `Boosting.AllKept` | experimental/squirrel/tree_builder.cc:460-507 | For a row that every root mask kept these are the terms of all trees |
| `Boosting.InferTrainingRow` | experimental/squirrel/squirrel_demo_main.cc:341-343 | Inference on such a training row goes through and opens to exactly what training added to its prediction |
| `Bits.Log2CeilBounds` | libspu/core/bit_utils.h:28-30 | The result is the least exponent whose power of two reaches n |
| `Bits.GroupsCombine` | libspu/mpc/ab_api.cc:316-325 | The circle operator of the prefix adders combines two neighbouring groups of positions |
| `Bits.CarryIsGroupG` | libspu/mpc/ab_api.cc:316-349 | The generate bit of the low n positions is the carry of school addition, and the sum bits together with it are the sum |
| `BitInterleave.MaskBits` | libspu/core/bit_utils.h:52-68 | A level's swap mask marks the positions whose binary digits level and level + 1 read 01, its keep mask those with equal digits |
| `BitInterleave.StepSwaps` | libspu/core/bit_utils.h:108-113 | One step exchanges those two digits of every bit position |
| `BitInterleave.BitDeintl` | libspu/core/bit_utils.h:86-116 | Digit stride of every bit position moves to the top of the position's block, for every word, stride and width |
| `BitInterleave.BitIntl` | libspu/core/bit_utils.h:132-162 | The digit at the top of every block moves down to place stride |
| `BitInterleave.IntlUndoesDeintl` | libspu/core/bit_utils.h:118-162 | A word whose de-interleaving is given is determined: interleaving it back gives the original |
| `BitInterleave.DeintlUndoesIntl` | libspu/core/bit_utils.h:72-116 | And the other way round |
| `BitInterleave.RoundTrip` | libspu/core/bit_utils.h:86-162 | Interleaving after de-interleaving, and the reverse, is the identity for every word, stride and width |
| `PdepPext.HalfMaskBits` | libspu/core/bit_utils.cc:22-29 | The masks mark the positions whose binary digit stride is 0 |
| `PdepPext.RankOf` | libspu/core/bit_utils.cc:33-34 | The rank of a position among those with the same digit stride is its other digits |
| `PdepPext.PextAgrees` | libspu/core/bit_utils.cc:21-35 | The gathering form moves the bits exactly like the log-step loop, for every 64-bit word and stride |
| `PdepPext.PdepAgrees` | libspu/core/bit_utils.cc:37-51 | And the scattering form like the interleaving loop |
| `PdepPext.FormsAgree` | libspu/core/bit_utils.cc:21-51 | The loops, run on a 64-bit word, return the words the two forms return |
| `BooleanShares.AndBB` | libspu/mpc/semi2k/boolean.cc:133-190 | Conjunction on the narrowest machine type that holds the narrower operand loses no bit |
| `BooleanShares.AndPairs` | libspu/core/value.h:98-123 | Two packed conjunctions are the two conjunctions; refused if and only if shares packed together differ in width |
| `BooleanShares.BitDeintlB` | libspu/mpc/ab_api.cc:278-305 | The share version computes the same permutation; refused unless the width is a power of two |
| `BooleanShares.BitIntlB` | libspu/mpc/ab_api.cc:247-276 | Likewise for interleaving |
| `BooleanShares.BitScatter` | libspu/mpc/ab_api.cc:351-363 | hi and lo hold the positions whose digit stride is 1 and 0, with the right widths |
| `BooleanShares.BitGather` | libspu/mpc/ab_api.cc:365-374 | Puts the halves back together: the inverse of BitScatter; halves as wide as the whole word come out xor-ed and interleaved, for the left shift by the whole width does nothing |
| `PrefixAdders.SpansDouble` | libspu/mpc/ab_api.cc:332-344 | One Kogge-Stone level doubles the span every position speaks for |
| `PrefixAdders.PpaKoggeStone` | libspu/mpc/ab_api.cc:326-349 | Returns the sum modulo the ring size of operands below 2^nbits, for any nbits up to the ring width |
| `PrefixAdders.SelMaskBits` | libspu/mpc/ab_api.cc:381-389 | Level idx's selection mask marks the last position of every run of 2^idx |
| `PrefixAdders.Spread` | libspu/mpc/ab_api.cc:406-412 | Copies the last bit of every run over the whole run, in log-many steps |
| `PrefixAdders.SklanskyLevel` | libspu/mpc/ab_api.cc:398-428 | One Sklansky level doubles the runs that prefixes are known for |
| `PrefixAdders.SklanskyRound` | libspu/mpc/ab_api.cc:398-428 | One pass of the loop, share operations and width checks included; refused unless the width is a power of two |
| `PrefixAdders.PpaSklansky` | libspu/mpc/ab_api.cc:377-433 | Returns the sum modulo the ring size; refused unless the widths agree and are zero or a power of two |
| `PrefixAdders.AddBB` | libspu/mpc/ab_api.cc:437-460 | The sum modulo the ring size whichever circuit is chosen; exact condition for a refusal |
| `PrefixAdders.SumDetermined` | libspu/mpc/ab_api.cc:450-460 | The sum is one word, so the two circuits are interchangeable |
| `CarryTree.HalvingKeeps` | libspu/mpc/ab_api.cc:478-489 | Combining neighbouring positions keeps what the low positions generate |
| `CarryTree.ShiftKeeps` | libspu/mpc/ab_api.cc:473-477 | Padding with one position that neither generates nor propagates keeps it too |
| `CarryTree.CarryRound` | libspu/mpc/ab_api.cc:472-490 | One pass keeps the carry, shrinks k, and passes its checks exactly when the width rule says so |
| `CarryTree.PassesExactly` | libspu/mpc/ab_api.cc:469-492 | The width checks of all passes, in closed form: k <= 1, or the width after padding an odd k is a power of two and the even k is one that is not larger, or the width times one more than a power of two |
| `CarryTree.CarryA2B` | libspu/mpc/ab_api.cc:462-494 | Refused exactly when that form fails; otherwise, for a positive width, bit 0 is the carry out of the low k bits for all operands if 1 <= k <= nbits, and for no other k is it right on all-ones operands; for width 0 it is right for every k that is accepted |
| `CarryTree.PowersPass` | libspu/mpc/ab_api.cc:351-363 | The checks pass when the width and k are powers of two, k not above the width |
| `CarryTree.TopBitPasses` | libspu/mpc/semi2k/conversion.cc:176-192 | They pass in the top-bit extraction, where k is one less than the ring width |
| `Shapes.CheckInBounds` | libspu/core/shape.cc:19-30 | True if and only if the index has the right rank and every coordinate is inside its extent |
| `Shapes.MakeCompactStrides` | libspu/core/shape.cc:32-46 | Each axis steps over the product of the later extents; axes of extent 1 do not step |
| `Shapes.FlattenIndex` | libspu/core/shape.cc:48-58 | The row-major position of an index |
| `Shapes.UnflattenIndex` | libspu/core/shape.cc:60-67 | The index at a row-major position |
| `Shapes.UnflattenRange` | libspu/core/shape.cc:48-67 | Flattening undoes unflattening, which stays in bounds |
| `Shapes.FlattenRange` | libspu/core/shape.cc:48-67 | Unflattening undoes flattening, which stays below the number of elements |
| `Shapes.CalcFlattenOffset` | libspu/core/shape.h:180-191 | The sum of coordinate times stride; with no strides given, those of a compact array |
| `Shapes.BumpIndices` | libspu/core/shape.h:164-178 | Steps, in place, to the index at the next row-major position; refuses exactly at the last one and then changes nothing |
| `Shapes.NextIndex` | libspu/core/shape.h:164-178 | Bumping the last axis that is not at its end, and zeroing those behind it, is the next row-major index |
| `Shapes.CompactIsRowMajor` | libspu/core/shape.cc:32-46 | With compact strides the offset of an element is its row-major position |
| `NoCopyReshape.FindGroup` | libspu/core/ndarray_ref.cc:74-85 | The search for ranges of equal product ends inside both shapes and finds the smallest such ranges |
| `NoCopyReshape.StrippedSame` | libspu/core/ndarray_ref.cc:57-68 | Dropping axes of extent 1 keeps every element's offset |
| `NoCopyReshape.EvenSame` | libspu/core/ndarray_ref.cc:92-101 | Two evenly stepping groups with the same product and last stride have the same offsets |
| `NoCopyReshape.OffsetSplits` | libspu/core/ndarray_ref.cc:86-90 | A position that is no product of trailing extents is the sum of two smaller ones whose offsets add up |
| `NoCopyReshape.UnevenGroup` | libspu/core/ndarray_ref.cc:86-90 | If an old group steps unevenly, no strides give the new group its offsets |
| `NoCopyReshape.NotPossible` | libspu/core/ndarray_ref.cc:86-90 | So the early refusal is right: no strides at all would do |
| `NoCopyReshape.AttemptNocopyReshape` | libspu/core/ndarray_ref.cc:43-115 | Returns strides under which every row-major position keeps its offset if such strides exist, and refuses only if none do |
| `NoCopyReshape.CanUseFastIndexing` | libspu/core/ndarray_ref.cc:117-152 | True if and only if (for non-empty arrays) all offsets are one stride times the row-major position; returns that stride |
| `NoCopyReshape.LinearFlattens` | libspu/core/ndarray_ref.h:197-205 | An array with fast indexing is flattened under that one stride with no copy |
| `Views.SliceAddr` | libspu/core/ndarray_ref.cc:289-318 | Element idx of a slice is element start + idx * step of the array, and lies before end |
| `Views.SliceHasAll` | libspu/core/ndarray_ref.cc:299-313 | A slice has exactly the elements start, start + step, ... before end on every axis, and an axis of length one gets stride 0 |
| `Views.SliceExact` | libspu/core/ndarray_ref.cc:289-318 | The elements of a non-empty slice with forward steps are all elements of the array if and only if no start is negative |
| `Views.TransposeAddr` | libspu/core/ndarray_ref.cc:332-346 | Element idx of a transposed array is the element whose coordinates idx permutes |
| `Views.ReverseLands` | libspu/core/ndarray_ref.cc:348-360 | What reverse yields for any list of existing axes: every naming of an axis turns it round and moves the offset once more |
| `Views.ReverseAddr` | libspu/core/ndarray_ref.cc:348-360 | When it only mirrors, element idx is the mirrored element of the array |
| `Views.ReverseExact` | libspu/core/ndarray_ref.cc:348-360 | Every element is the mirrored one if and only if axes named an even number of times have extent 1 or stride 0 and the surplus flips cancel out |
| `Views.DistinctMirrors` | libspu/core/ndarray_ref.cc:348-360 | For distinct axes that is so |
| `Views.ReverseCompact` | libspu/core/ndarray_ref.cc:348-360 | On a compact array it is so if and only if every axis named more than once has extent 1 |
| `Views.BroadcastAddr` | libspu/core/ndarray_ref.cc:239-262 | Where an element of a broadcast array lies in the buffer |
| `Views.BroadcastExact` | libspu/core/ndarray_ref.cc:239-262 | A broadcast addresses its source's elements if and only if no axis that grows has a stride of its own |
| `ViewSafety.FreshGood` | libspu/core/ndarray_ref.cc:180-187 | A compact array stays in its buffer, and its indices have distinct addresses |
| `ViewSafety.SliceGood` | libspu/core/ndarray_ref.cc:289-318 | Slicing from non-negative starts with forward steps keeps that views stay in the buffer and overlap only along stride-0 axes |
| `ViewSafety.SliceInsideExact` | libspu/core/ndarray_ref.cc:289-318 | A non-empty forward slice of any view stays in the buffer if and only if the elements at its lowest and highest corner, by the signs of the strides, lie there |
| `ViewSafety.SliceStaysInside` | libspu/core/ndarray_ref.cc:289-318 | For a compact array: if and only if the address of its start is not negative |
| `ViewSafety.TransposeGood` | libspu/core/ndarray_ref.cc:332-346 | So does transposing |
| `ViewSafety.ReverseGood` | libspu/core/ndarray_ref.cc:348-360 | So does reversing where it only mirrors |
| `ViewSafety.ReverseStaysInside` | libspu/core/ndarray_ref.cc:348-360 | Reversing axes of a compact array stays in the buffer if and only if every axis named more than once has extent 1 |
| `ViewSafety.BroadcastGood` | libspu/core/ndarray_ref.cc:239-262 | So does broadcasting where no axis that grows has a stride of its own |
| `ViewSafety.ReshapeGood` | libspu/core/ndarray_ref.cc:264-287 | So does reshaping, copied or not |
| `ViewSafety.RunsStayGood` | libspu/core/ndarray_ref.cc:239-360 | Every view reached from a compact array by any sequence of these operations, under the exact conditions of Views, stays in its buffer, and two of its indices alias only if they differ along stride-0 axes alone |
| `ViewSafety.ThinSliceEscapes` | libspu/core/ndarray_ref.cc:306-313 | A step beyond all but one of several elements leaves a stride that a broadcast follows out of the buffer |
| `ViewSafety.NegativeStartEscapes` | libspu/core/ndarray_ref.cc:299-304 | A negative start passes the checks and leaves the buffer |
| `ViewSafety.ReverseTwiceEscapes` | libspu/core/ndarray_ref.cc:352-356 | Reversing an axis twice in one call leaves the buffer |
| `NdArrays.ReshapeView` | libspu/core/ndarray_ref.cc:264-287 | The sharing part of reshape keeps every element's address, or no strides would |
| `NdArrays.Iterator.constructor` | libspu/core/ndarray_ref.h:207-231 | Begins at the row-major position of the index, at the address indexing gives; past the end if out of bounds; also when flattened for fast indexing |
| `NdArrays.Iterator.Next` | libspu/core/ndarray_ref.cc:555-575 | Steps to exactly the next row-major position, at the address indexing gives, and past the end after the last |
| `NdArrays.NdArrayRef.At` | libspu/core/ndarray_ref.h:180-189 | The element at a row-major position, by either indexing path |
| `NdArrays.NdArrayRef.Clone` | libspu/core/ndarray_ref.cc:206-220 | A compact array in a buffer of its own with the same row-major elements |
| `NdArrays.NdArrayRef.Reshape` | libspu/core/ndarray_ref.cc:264-287 | Keeps the row-major element sequence; copies only if no strides would do; refused unless the element counts agree |
| `NdArrays.NdArrayRef.Slice` | libspu/core/ndarray_ref.cc:289-318 | Accepts exactly the calls that pass the checks |
| `NdArrays.NdArrayRef.Transpose` | libspu/core/ndarray_ref.cc:332-346 | Refused exactly if the number of axes is wrong or one is repeated; of the calls let through, those that name exactly the existing axes transpose, and all others read an axis that is not there |
| `NdArrays.NdArrayRef.Reverse` | libspu/core/ndarray_ref.cc:348-360 | Reverses exactly if all axes exist; otherwise the first that does not decides: too large is refused, negative gets past the check and reads and writes an axis that is not there |
| `NdArrays.NdArrayRef.BroadcastTo` | libspu/core/ndarray_ref.cc:239-262 | Places the strides at the given, or the last, axes of the target and zero elsewhere |
| `NdArrays.NdArrayRef.EliminateZeroStride` | libspu/core/ndarray_ref.cc:493-512 | Same shape and elements; moves to a fresh compact buffer if and only if some axis repeats its elements |
| `NdArrays.NdArrayRef.UpdateSlice` | libspu/core/ndarray_ref.cc:514-553 | Elements in the region take the new value's elements in order, all others keep theirs, also for a value in the same buffer if nothing of it is overwritten before it is read; in the same buffer the result is in any case that of copying element by element; without repeats the buffer is written at exactly the region's addresses, with repeats the old buffer stays as it was |
| `NdArrays.OverlapExact` | libspu/core/ndarray_ref.cc:546-552 | Copying element by element within one buffer is copying all at once, whatever the buffer holds, if and only if no element is read after another one was written over it |
| `NdArrays.CopyRun` | libspu/core/ndarray_ref.cc:546-552 | Walking two iterators in step copies every element to its place and touches nothing else |
| `NdArrays.WrittenAt` | libspu/core/ndarray_ref.cc:514-553 | Writing exactly a region's addresses changes exactly the region's elements |
| `NdArrays.OneAddressEach` | libspu/core/ndarray_ref.cc:493-512 | Without repeated axes positions and addresses match one to one |
| `NdPadding.Expand` | libspu/core/ndarray_ref.cc:362-380 | The doubling copy fills every slot with the one element |
| `NdPadding.DeducePadShape` | libspu/core/ndarray_ref.cc:25-39 | Accepts exactly matching ranks; on every axis the result ends edge_padding_high slots behind the slot of the last element, an empty axis gets low + high - interior, negative extents included |
| `NdPadding.PadRange` | libspu/core/ndarray_ref.cc:423-448 | Any range of the parallel loop puts exactly its elements in place |
| `NdPadding.Pad` | libspu/core/ndarray_ref.cc:413-451 | Element i stands at low + i * (interior + 1) if that is inside, exactly edge_padding_high slots follow the last element or are cut off, all other slots hold the padding value, for negative edges too and however the index range is split |
| `NdPadding.SlotsDiffer` | libspu/core/ndarray_ref.cc:429-444 | No two elements go to the same slot |
| `NdConcat.CopyPart` | libspu/core/ndarray_ref.cc:222-237 | Writes exactly the part's slice of the result, in order |
| `NdConcat.OthersStay` | libspu/core/ndarray_ref.cc:402-408 | Writing one part leaves the slices of the parts before it as they were |
| `NdConcat.Concatenate` | libspu/core/ndarray_ref.cc:382-411 | Every part appears unchanged behind the parts before it, in a new array whose extents add up along the axis |
| `NdConcat.PartOf` | libspu/core/ndarray_ref.cc:382-411 | Every index of the result is the moved index of some part |
| `NdConcat.PartOnce` | libspu/core/ndarray_ref.cc:402-408 | It is so for one part and one index only: the parts tile the result |
| `Blocks.WalkFindsAll` | libspu/device/executor.cc:182-194 | Walking nested regions finds a value if and only if it is used there at some depth |
| `Blocks.SymbolScope.LookupValue` | libspu/device/executor.cc:32-51 | Finds the innermost entry of a name, or reports that there is none |
| `Blocks.SymbolScope.HasValue` | libspu/device/executor.cc:53-87 | True if and only if the name is visible |
| `Blocks.SymbolScope.HasValues` | libspu/device/executor.cc:67-82 | True if and only if all names are visible |
| `Blocks.SymbolScope.AddValue` | libspu/device/executor.cc:89-97 | Binds the name in this scope and nothing else |
| `Blocks.SymbolScope.RemoveValue` | libspu/device/executor.cc:99-102 | Removes this scope's entry, uncovering an outer one |
| `Blocks.AfterNext` | libspu/device/executor.cc:135-137 | An operation adds exactly its results to the table |
| `Blocks.UsesSettled` | libspu/device/executor.cc:135-137 | In the final table everything an operation reads still has the value it had when it ran |
| `Blocks.KernelArguments` | libspu/device/executor.cc:135-137 | Argument k of an operation's kernel is the value its operand k has when the operation runs, and the outputs are those of the kernel on these arguments |
| `Blocks.RunBlock` | libspu/device/executor.cc:131-151 | Runs a block in SSA order; result k is the final value of the name that is operand k of the terminator |
| `Executor.InitialInv` | libspu/device/executor.cc:234-256 | The invariant holds when the tasks are queued and the workers start |
| `Executor.StepKeeps` | libspu/device/executor.cc:197-289 | Every atomic step of every worker keeps the invariant, spurious wake-ups included; the two look-ups of the dependencies, waiting after a refusal, entering each result, and taking the mutex to notify are steps of their own |
| `Executor.RunsKeep` | libspu/device/executor.cc:197-289 | The invariant holds all along every interleaving with any number of workers |
| `Executor.ReadyExactly` | libspu/device/executor.cc:178-217 | An operation is ready if and only if its operands, the values of the block used at any depth of its regions, and all results of earlier operations with side effects, debug prints excepted, are there |
| `Executor.StartsInTime` | libspu/device/executor.cc:202-209 | A kernel starts when all it reads, at any region depth, is there with the value of the sequential run, and, if it waited, after every result of the earlier operations with side effects, debug prints excepted; it has not been started before |
| `Executor.NoDeadlock` | libspu/device/executor.cc:202-289 | While a worker has not left, some worker can take a real step: no deadlock and no lost wake-up, also when a result arrives between the look-up that missed it and the wait |
| `Executor.UnlockedGetsStuck` | libspu/device/executor.cc:209-213 | The mutex around the notification is needed: without it two workers, running an operation and one that takes its result, can end stuck, one of them waiting for a value that is there |
| `Executor.StepMeasure` | libspu/device/executor.cc:202-289 | Every step other than a spurious wake-up brings the end nearer |
| `Executor.SpuriousMeasure` | libspu/device/executor.cc:204-207 | A spurious wake-up sets it back by a bounded amount |
| `Executor.ProperRunsEnd` | libspu/device/executor.cc:234-289 | Runs without spurious wake-ups are bounded by the size of the block and the number of workers |
| `Executor.AllRun` | libspu/device/executor.cc:234-289 | When all workers have left, each operation was started exactly once and the table is that of the sequential run |
| `Executor.ParallelIsSequential` | libspu/device/executor.cc:215-289 | A run that can go no further, for every interleaving and concurrency of at least 1, has started each operation exactly once and has the table of runBlock; result k is the value in it of operand k of the terminator |
| `Executor.UnguardedAborts` | libspu/device/executor.cc:202-209 | An operation that captures a value of the block but has no operand can run before the value exists |
| `Executor.GuardedExactly` | libspu/device/executor.cc:202-209 | No run reads a missing value if and only if every operation with captured values has an operand |
| `HalfRounding.NearestUnique` | libspu/core/half.h:909-932 | A fraction has one nearest half, ties going to the even code |
| `HalfRounding.NearestOf` | libspu/core/half.h:925-932 | Between neighbouring codes the nearer one, at the midpoint the even one, is nearest of all codes |
| `HalfRounding.RoundAt` | libspu/core/half.h:909-932 | Guard and sticky bit as rounded uses them yield the nearest half |
| `HalfRounding.TinyIsZero` | libspu/core/half.h:890-897 | Below half the least magnitude the nearest half is zero |
| `HalfRounding.HugeIsInfinite` | libspu/core/half.h:873-882 | From the overflow bound on it is infinity |
| `HalfRounding.Fixed2HalfNearest` | libspu/core/half.h:979-996 | fixed2half returns the nearest half for every normalised Q1.F mantissa, exponent and sticky bit, subnormal results included |
| `HalfArithmetic.Normalize` | libspu/core/half.h:3085-3086 | Shifting a subnormal operand up keeps its value |
| `HalfArithmetic.Multiply` | libspu/core/half.h:3068-3099 | The product is the exact one rounded once, negative if and only if one operand is, zeros and infinities included; infinity times zero and NaN give NaN |
| `HalfArithmetic.Divide` | libspu/core/half.h:3109-3141 | The quotient is the exact one rounded once, negative if and only if one operand is, zeros and infinities included; a division of infinities or of zeros and NaN give NaN |
| `HalfSums.NearInCell` | libspu/core/half.h:3016-3020 | A shifted operand with a sticky bit stays in the same rounding cell as the exact one |
| `HalfSums.ShiftedInCell` | libspu/core/half.h:3021-3027 | Cancellation by one place, or of exact differences by any, keeps the cell |
| `HalfSums.SumAligned` | libspu/core/half.h:3028-3037 | Adding aligned significands rounds to nearest, overflow included |
| `HalfSums.SubtractAligned` | libspu/core/half.h:3021-3037 | Subtracting them rounds to nearest and reports exact cancellation |
| `HalfSums.Add` | libspu/core/half.h:2989-3039 | The sum of two halves is the exact one rounded once, with its sign; exact cancellation gives plus zero except for two minus zeros |
| `HalfFma.FmaAdd` | libspu/core/half.h:3331-3348 | The aligned sum of product and addend stays in the rounding cell of the exact sum |
| `HalfFma.FmaSubtract` | libspu/core/half.h:3331-3342 | So does the difference, through cancellation of any depth |
| `HalfFma.Fma` | libspu/core/half.h:3278-3358 | x * y + z with a single rounding of the exact value, with its sign; an infinite product is negative if and only if one factor is, and is NaN with a zero factor or an opposite infinite summand |
| `HalfConversions.Int2Half` | libspu/core/half.h:1210-1223 | The nearest half to an integer of either sign |
| `HalfConversions.Double2Half` | libspu/core/half.h:1130-1158 | The nearest half to a finite double, subnormal results included; infinities stay infinite |
| `HalfRoots.IntegerRoot` | libspu/core/half.h:1841-1857 | The digit-by-digit loop returns the integer square root and leaves the remainder |
| `HalfRoots.NearestRootOf` | libspu/core/half.h:3742-3760 | A square root never lies on a midpoint, so one comparison decides the nearest code |
| `HalfRoots.Sqrt` | libspu/core/half.h:3742-3760 | The nearest half to the square root; negative arguments and NaN give NaN |
| `HalfRoots.Modulus` | libspu/core/half.h:1783-1834 | The exact remainder of two different positive magnitudes; of equal ones the magnitude itself |
| `HalfRoots.Fmod` | libspu/core/half.h:3211-3223 | The exact remainder of two finite halves with the sign of the first; special cases as the standard says |
| `Vectorize.Pack` | libspu/core/vectorize.h:71-83 | The joined elements and the sizes of the parts |
| `Vectorize.Unpack` | libspu/core/vectorize.h:85-103 | Cuts into parts of the given sizes; refused if and only if they do not add up |
| `Vectorize.PiecesDetermined` | libspu/core/vectorize.h:71-103 | Parts are determined by whole and sizes: unpacking undoes packing |
| `Vectorize.JoinedPairwise` | libspu/core/vectorize.h:135-147 | One operation on the joined containers does all pairs |
| `Vectorize.VMap` | libspu/core/vectorize.h:135-147 | Equals applying the operation pair by pair |
| `Vectorize.FoldPairs` | libspu/core/vectorize.h:184-211 | Folding the pairs of two halves is folding both halves, for associative and commutative operations |
| `Vectorize.VReduce` | libspu/core/vectorize.h:184-211 | Equals the sequential fold and makes exactly ceil(log2 n) packed calls |
| `Vectorize.EachOnce` | libspu/core/vectorize.h:184-211 | Uses every input exactly once |
| `ValueChunks.BuildChunks` | libspu/core/value.cc:79-99 | The chunks are the consecutive cuts of the data, the last one shorter if need be |
| `ValueChunks.CutAt` | libspu/core/value.cc:84-97 | Chunk i declares the whole size, stands at i times the chunk size, and has that many bytes of the data or the rest |
| `ValueChunks.ToProto` | libspu/core/value.cc:73-119 | Meta data and the chunks of the real, then the imaginary part; exact condition for a refusal |
| `ValueChunks.Order` | libspu/core/value.cc:168-176 | Sorts chunks into a table by offset; refused if and only if an offset repeats |
| `ValueChunks.Reassemble` | libspu/core/value.cc:165-190 | Accepts chunks, in any order, if and only if they declare the array's size and tile it: every byte lies in a chunk, and no two begin together, overlap or reach beyond; then every chunk's bytes stand at its offset |
| `ValueChunks.CutTiles` | libspu/core/value.cc:79-99 | The chunks an array is cut into, in any order, tile it, declare its size and hold its bytes |
| `ValueChunks.TilesDetermine` | libspu/core/value.cc:178-190 | Only one array holds the bytes of chunks that tile it |
| `ValueChunks.FromReal` | libspu/core/value.cc:151-191 | Accepts if and only if the data type is valid, the visibility is that of the storage type and the chunks tile an array of the shape's size; the value has the meta data and the chunks' bytes |
| `ValueChunks.FromProto` | libspu/core/value.cc:135-191 | Accepts under exactly these conditions, for a complex value on each half of its chunks; the value is determined by the meta data and the chunks |
| `ValueChunks.RoundTrip` | libspu/core/value.cc:73-191 | fromProto undoes toProto for every chunk size, real or complex, and any order of the chunks within each part |
| `ShareExchange.TakeRow` | libspu/device/io.cc:268-291 | The messages of a table, taken one by one, give the table |
| `ShareExchange.PrefixGoesOn` | libspu/device/io.cc:268-291 | Short of the last message the receiver is neither stuck nor finished |
| `ShareExchange.StartInv` | libspu/device/io.cc:228-241 | The invariant of the exchange holds at the start |
| `ShareExchange.StepKeeps` | libspu/device/io.cc:228-295 | Every step of every party keeps it: on each link nothing is lost, repeated or reordered |
| `ShareExchange.RunsKeep` | libspu/device/io.cc:228-295 | It holds all along every interleaving |
| `ShareExchange.NoDeadlock` | libspu/device/io.cc:228-295 | While a party has not finished some party can go on |
| `ShareExchange.StepShrinks` | libspu/device/io.cc:228-295 | Every step leaves its party fewer steps to take: no run goes on for ever |
| `ShareExchange.Transposed` | libspu/device/io.cc:217-224 | When all have finished, column j of party i is the table party j had for party i |
| `ShareExchange.ExchangeDelivers` | libspu/device/io.cc:217-295 | A run that can go no further has delivered the transpose, for any number of parties |
| `Sync.SharesPerParty` | libspu/device/io.cc:321-336 | Row i of a party holds its variables' shares for party i, name by name |
| `Sync.TableOfRowFor` | libspu/device/io.cc:262-292 | A received table has exactly the sender's names, each with the share sent |
| `Sync.ColumnsFor` | libspu/device/io.cc:338-339 | After the exchange every party's columns are the tables for it |
| `Sync.CheckNames` | libspu/device/io.cc:341-348 | Accepts if and only if no name comes from two parties |
| `Sync.Enter` | libspu/device/io.cc:341-356 | Accepts if and only if no name comes from two parties; then every name is bound to the owner's share for this party and other symbols stay |
| `Sync.SameNames` | libspu/device/io.cc:341-356 | All parties see the same names and so accept or refuse alike |
| `Sync.SyncParty` | libspu/device/io.cc:338-356 | After the exchange a party accepts if and only if no two owners share a name, so all accept or none does; then all parties hold the same owned names, each bound to the owner's share for that party, and other symbols stay |
| `Sync.Decode` | libspu/device/io.cc:350-353 | What a share is sent as decodes to that share |

## Left out

- `NdArrays.NdArrayRef.UpdateSlice`: asks that the new value is another array object, which may share the buffer; an array written into itself is not modelled.
- `Views.SliceAddr`: asks for positive steps; with zero the source divides by zero, with negative ones its extents lose their meaning.
- `Views.SliceExact`: asks for positive steps for the same reason.
- `ViewSafety.SliceGood`: asks for positive steps for the same reason.
- `NdArrays.NdArrayRef.Slice`: asks for positive steps for the same reason.
- `NdPadding.Expand`: asks for a non-empty target; with an empty one the source's copy does not end.
- `NdPadding.Pad`: asks for positive padded extents for the same reason; the ranges of the parallel loop run one after the other, each whole, in any order and with any overlap.
- `NdConcat.Concatenate`: asks that the parts agree except along the axis, which the source relies on without a check.
- `Shapes.UnflattenIndex`: asks for positive extents; with a zero extent the source takes a remainder by zero.
- `NoCopyReshape.AttemptNocopyReshape`: asks for equal non-zero element counts, as its callers ensure.
- `Vectorize.VReduce`: the operation is applied element by element to containers of one size.
- `HalfRounding.Fixed2HalfNearest`: takes a normalised mantissa, as its callers pass here, and adds the sign; the normalising and the signed variant of the template are not modelled.
- `Executor.UnguardedAborts`: a read of a missing value ends the run at the start of the kernel; in the source a nested parallel region can instead wait on an event of its own.
- `Boosting.Train`: gradients, root masks, chosen buckets and leaf weights of every round are arbitrary inputs.  It speaks of the predictions of rows whose bins are below 65536; for other rows agreement depends on the splits, by `TreeInference.RowReachesItsLeaf`.
- `BinMatVec.BinMatVecProtocol`: vectors of length zero are outside; the column count must be positive, as the index mapper demands.
- Encryption, key switching, LWE packing, modulus switching and oblivious transfer are ideal: a ciphertext is what it encrypts, a correlated transfer adds the correlation where the choice bit is 1.
- The rule for padding the number of LWEs when the output is longer than one polynomial, which depends on packing code that is not part of this model.
- Split gains, the arg-max over them, and the division and fixed-point approximations of the leaf weights: the chosen bucket and the weight are arbitrary.
- Direct setup of the bucket map (`SetUpBucketMap`), activation functions, statistics and printing of trees.
- Rounding of doubles in binning and inference: they are reals with one infinity; missing values are that infinity.
- 32-bit narrowing of revealed bucket numbers.
- The protocol kernels behind boolean shares: they act on opened values and track the number of significant bits; rings have 32, 64 or 128 bits.
- Arithmetic right shift, bit reversal, and the other protocols' versions of the interleaving kernels.
- Element sizes, element types and reinterpretation of arrays (`as`), gather and scatter by index lists, printing.
- Negative interior padding.
- MLIR itself: blocks are lists of operations with operands, results and nested regions; kernels are deterministic functions of what they read, and forking a context has no effect on values.
- Execution inside nested regions, which is a recursive use of the same runner, and symbol scopes across threads.
- Fairness of the scheduler: termination counts all steps but spurious wake-ups, which may be arbitrarily many but each set the measure back by a bounded amount only.
- NaN payloads, exception flags, rounding modes other than to nearest, transcendental functions, single-precision conversion, and `remainder` and `remquo`.
- Parsing of storage-type strings, and the shortcut for compact arrays in serialisation; element data is its row-major bytes.
- In `fromProto` a chunk that reaches beyond the array is refused when it is met; the source finds the mismatch afterwards.
- How shares are made, reading results back on a host, and the transport below the links, whose messages arrive in order.
