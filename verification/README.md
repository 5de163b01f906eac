# Verified model of the DataSketches CUDA core

This project models the GPU Theta sketch and the host side of the HLL_8 sketch of
datasketches-cuda, and proves what they promise. Run `dafny verify dfyconfig.toml`.

**Theta.** A Theta sketch keeps the k smallest distinct nonzero hashes below its starting
threshold and lets the threshold fall to the next one when there are more than k.
`ThetaSpec.Settle` says just that. The project proves that the code refines it, whatever the
schedule of the kernel, the survivor budget and the predicted chunk sizes:

- `ScreenKernel` is the screening kernel as a step system. Blocks and warps interleave
  arbitrarily, and so do the lanes of a warp between the match and the scan. A relaxed filter
  load may return any value ever stored in its cell, or the initial zero. `ScreenSafety` proves,
  for every run, that exactly the surviving hashes are emitted and that the per-warp
  reservations fill the output without gap or overlap, each slot written once.
- `ThetaSketch.Sketch` is the sketch object: screening (running that kernel), sort, unique, merge,
  install, the chunked update with its retries, the set operations, saving and loading. Any
  allocation or copy may fail at any point; an operation reports a failure exactly if there was one,
  so on a healthy device every update completes. Each method is proved against the functions of
  `ThetaSpec`, whose laws hold over all runs: the retained hashes are the true set below theta;
  grouping, order and repetition of keys do not matter; merging is union.
- `ThetaImage` and `ThetaReload` are the compact image, version 3: the serializer, the validating
  parser, the layout byte by byte, the exact language accepted and the fault reported otherwise, round
  trips, and what a reload cannot bring back.

**HLL.** `HllReduction` is the register reduction with rounded doubles, `HllInterpolation` the table
search and the windowed cubic, `HllBlob` the 40-byte preamble and the register blob.

Hashes are natural numbers; the key hash and the seed hash are parameters. Library primitives
(radix sort, unique, merge, select, binary search) are written out in `DevicePrimitives` by their
documented contracts. Nondeterministic assignments stand for the outcome of device calls.

## Results that qualify the documentation

- Merging is union only under a condition, given exactly by `ThetaSpec.MergeIsUnionExactly`: the
  operand must not be sampled harder, and its k must not be smaller, unless this sketch's starting
  theta is at most the operand's k + 1. `ThetaSpec.MergeLowersTheta` builds the failing inputs.
- An image carries neither the sampling probability nor the nominal size, which the caller supplies
  again. A sketch reloaded into any k that holds its entries follows the original through all updates
  exactly if the original was not an empty sampled sketch, and k is the original's or theta is at most
  the smaller of the two plus 1 (`ThetaReload.ReloadFaithfulExactly`). A larger destination is thus safe
  to load into, but the two sketches part at the next cut. With resets and set operations as well it
  can stand in for the original exactly if that was unsampled and k is its own
  (`ThetaReload.InterchangeableExactly`).
- The repository's README says every HLL blob byte except two fields survives a reload. This is false of
  accepted blobs. A blob whose first sum is the documented one, over the registers below 32, loses it
  as soon as a register has reached 32, and only then (`HllBlob.DocumentedSumSurvivesExactly`); and
  every accepted blob has a neighbour, byte 6 set to 1, that loads to the same sketch and loses that
  byte (`HllBlob.SomeOtherByteLost`). `HllBlob.AllButFlagsAndHipSurviveExactly` says for which blobs the
  claim holds: bytes 4 and 6 are 0, byte 7 has no stray bits, and the two sums and two counts are what
  the registers imply. `HllBlob.ReserializeExactly` says which blobs survive whole, and
  `HllBlob.PreambleRoundTripExactly` does so for the preamble alone.
- The comment on `reduction_result::cur_min` describes a true minimum; the code always stores 0.
  `HllReduction.CurMinExactly`: the two agree exactly if some register is 0, and so do the counts.
  An array of ones is reported wrongly (`HllReduction.AllOnesMisreported`).
- The comment on `reduce_hll8` says that registers below 32 go to the first sum and the others to the
  second. As the comments on the fields have it, the code leaves one whole unit of each register from
  32 on in the first sum and takes it off the second (`HllReduction.AccumulatorSplit`). Either sum is as
  described for the function exactly if there is no such register (`HllReduction.SplitBySizeExactly`;
  `HllReduction.AllThirtyTwosMissplit` is an input where neither is); their total is right always.
- A sampling probability is accepted from 2^-63 on, as documented, because `max_theta` becomes
  2^63 when converted to a double; `Tuning.CheckedTheta` uses that value.

## Model

| member | source | states |
|---|---|---|
| ScreenKernel.WarpRun | include/datasketches/cuda/detail/theta/screen.cuh:102-120 | a warp emits as many hashes as the prefix sum over its lanes' counts says, which is what it reserves |
| ScreenSafety.IndexParts | include/datasketches/cuda/detail/theta/screen.cuh:68-83 | a key index determines block, tile step, item, warp and lane: no key is visited twice |
| ScreenSafety.IndexOwned | include/datasketches/cuda/detail/theta/screen.cuh:68-83 | every key index is visited by some lane, for every grid |
| ScreenSafety.LeaderExists | include/datasketches/cuda/detail/theta/screen.cuh:86-89 | a lane that is dropped in stage one has a lower lane that carries on with the same hash |
| ScreenSafety.StoreSecure | include/datasketches/cuda/detail/theta/screen.cuh:91-99 | a stale filter load never loses a hash: a lane drops its hash only if that hash has been let through elsewhere |
| ScreenSafety.StoreExactly | include/datasketches/cuda/detail/theta/screen.cuh:91-99 | a filter hit drops the hash and leaves the filter alone; otherwise the hash is let through and stored |
| ScreenSafety.OncePerItem | include/datasketches/cuda/detail/theta/screen.cuh:86-89 | one lane per distinct hash: a warp emits a hash at most once for each of its items |
| ScreenSafety.RunAt | include/datasketches/cuda/detail/theta/screen.cuh:102-120 | lane l's item i sits at the lane's scan offset plus its rank in the warp's run |
| ScreenSafety.ReserveTiled | include/datasketches/cuda/detail/theta/screen.cuh:108-114 | a fetch-add keeps the reservations disjoint, contiguous and one per emission |
| ScreenSafety.CursorAt | include/datasketches/cuda/detail/theta/screen.cuh:114-119 | a lane's cursor always points at the slot reserved for the item it is about to write |
| ScreenSafety.WriteIsFresh | include/datasketches/cuda/detail/theta/screen.cuh:115-119 | no output slot is written twice |
| ScreenSafety.InvariantKept | include/datasketches/cuda/detail/theta/screen.cuh:72-121 | every step keeps the whole kernel invariant |
| ScreenSafety.EmittedSet | include/datasketches/cuda/detail/theta/screen.cuh:58-100 | at the end the emitted hashes are exactly the input hashes h with 0 < h < theta |
| ScreenSafety.EmissionsBounded | include/datasketches/cuda/detail/theta/screen.cuh:108-113 | emissions come from distinct surviving keys, so the count is at most the number of those |
| ScreenSafety.FinalState | include/datasketches/cuda/detail/theta/screen.cuh:58-120 | set emitted, count, and every slot of the output at the end of any run |
| ScreenSafety.WorkDecreases | include/datasketches/cuda/detail/theta/screen.cuh:72-74 | every step uses up work, so every run is finite |
| ScreenSafety.NoDeadlock | include/datasketches/cuda/detail/theta/screen.cuh:72-121 | until all warps have exited some step is enabled |
| ScreenSafety.EveryRun | include/datasketches/cuda/detail/theta/screen.cuh:43-122 | over all interleavings and stale values: finite, never stuck, no hash twice for one item of a warp, and correct when done |
| ScreenLaunch.RunKernel | include/datasketches/cuda/detail/theta/sketch_impl.hpp:200-203 | a launch, any enabled step next, ends with the kernel's result |
| DevicePrimitives.BitWidth | include/datasketches/cuda/detail/theta/sketch_impl.hpp:186 | the least number of bits that can hold n |
| DevicePrimitives.LowBitsSuffice | include/datasketches/cuda/detail/theta/sketch_impl.hpp:183-187 | sorting on only bit_width(bound) bits is a complete sort and a permutation, because all keys are below bound |
| DevicePrimitives.UniqueOfAscending | include/datasketches/cuda/detail/theta/sketch_impl.hpp:167-176 | removing adjacent equals from a sorted range gives its set, strictly sorted |
| DevicePrimitives.MergeSortedAscends | include/datasketches/cuda/detail/theta/sketch_impl.hpp:224-230 | merging sorted ranges gives their union, sorted, nothing lost |
| DevicePrimitives.SelectSorted | include/datasketches/cuda/detail/theta/sketch_impl.hpp:150-165 | selection keeps exactly the matching hashes, in order |
| DevicePrimitives.BinarySearch | include/datasketches/cuda/detail/theta/policy.cuh:74 | finds a hash in a strictly sorted range exactly if it is there |
| Tuning.GridCoversInOneStep | include/datasketches/cuda/detail/theta/tuning.cuh:41-46 | the grid covers all keys in one tile step exactly if the block limit does not cap it, and no block is without keys |
| Tuning.CheckedThetaRange | include/datasketches/cuda/detail/theta/sketch_impl.hpp:100-110 | sampling probabilities in [2^-63, 1] are accepted, all others rejected |
| Tuning.CheckedThetaExactly | include/datasketches/cuda/detail/theta/sketch_impl.hpp:100-110 | the starting theta is the fraction p of 2^63 rounded down, and 2^63 - 1 for p = 1 |
| Tuning.NextChunk | include/datasketches/cuda/detail/theta/sketch_impl.hpp:262-283 | at least one key and no more than remain |
| Tuning.NextChunkLong | include/datasketches/cuda/detail/theta/sketch_impl.hpp:262-283 | at least 2^20 keys with the constructor's budget unless fewer remain |
| Tuning.NextChunkExactly | include/datasketches/cuda/detail/theta/sketch_impl.hpp:258-283 | a chunk above 2^20 keys is expected to fit the budget with a tenth to spare, and keeps to doubling at maximum theta and to 64-fold growth where the factor is hedged; a chunk that leaves keys over is as long as these allow |
| Tuning.DuplicateFactorExplains | include/datasketches/cuda/detail/theta/sketch_impl.hpp:321 | the measured factor times theta's rate times the keys is the pass's survivor count |
| Tuning.RetryChunk | include/datasketches/cuda/detail/theta/sketch_impl.hpp:322-326 | after an overflow at least one key and at most half; still at least 2^20 with the constructor's budget |
| Tuning.RetryChunkExactly | include/datasketches/cuda/detail/theta/sketch_impl.hpp:320-326 | a retry takes half the keys or, if that is less, the prediction from the factor that explains the overflowed pass |
| Tuning.AttemptsScreenLittle | include/datasketches/cuda/detail/theta/sketch_impl.hpp:320-328 | all attempts at a chunk together screen fewer than twice the keys of the first |
| Tuning.AttemptsFew | include/datasketches/cuda/detail/theta/sketch_impl.hpp:320-328 | r retries need a first attempt above 2^(r-1) budgets: at most the rounded-up logarithm of the ratio |
| Tuning.ChunkCount | include/datasketches/cuda/detail/theta/sketch_impl.hpp:314-335 | an update of n keys commits at most ceil(n / 2^20) chunks |
| HashSets.CutMeets | include/datasketches/cuda/detail/theta/sketch_impl.hpp:236-247 | the largest threshold that lets at most k hashes pass is unchanged theta or the (k+1)-th smallest passing hash |
| HashSets.TruncationCuts | include/datasketches/cuda/detail/theta/sketch_impl.hpp:236-247 | keeping the first k of a sorted buffer and taking entry k as theta is cutting the set |
| HashSets.CutAbsorbs | include/datasketches/cuda/detail/theta/sketch_impl.hpp:286-300 | cutting early and adding more hashes later ends where one cut over everything ends |
| HashSets.SortedUnique | include/datasketches/cuda/detail/theta/sketch_impl.hpp:395-407 | the retained buffer is determined by the retained set |
| ThetaSketch.InstallSettles | include/datasketches/cuda/detail/theta/sketch_impl.hpp:234-256 | installing a sorted result is settling on the set it enumerates |
| ThetaSketch.Sketch.constructor | include/datasketches/cuda/detail/theta/sketch_impl.hpp:74-85 | a new sketch is empty, at its starting theta, with budget max(2^22, 16k) |
| ThetaSketch.Sketch.Make | include/datasketches/cuda/detail/theta/sketch_impl.hpp:92-110 | arguments are rejected exactly outside lg_k in [5, 26] and p in [2^-63, 1]; otherwise a fresh sketch, or a failure exactly if the device fails |
| ThetaSketch.Sketch.Screen | include/datasketches/cuda/detail/theta/sketch_impl.hpp:190-204 | counts every emission, at most one for each surviving key, stores at most the capacity, and if they fit returns exactly the surviving set |
| ThetaSketch.Sketch.SortUnique | include/datasketches/cuda/detail/theta/sketch_impl.hpp:178-188 | strictly sorted, same set; requested buffers no larger than the input |
| ThetaSketch.Sketch.MergeUnique | include/datasketches/cuda/detail/theta/sketch_impl.hpp:206-232 | the union, strictly sorted, empty sides included |
| ThetaSketch.Sketch.Install | include/datasketches/cuda/detail/theta/sketch_impl.hpp:234-256 | the whole new state, or the old one exactly if the device fails |
| ThetaSketch.Sketch.FoldIn | include/datasketches/cuda/detail/theta/sketch_impl.hpp:293-299 | sorting, merging and installing the survivors of a batch is an update with the batch, all or nothing |
| ThetaSketch.Sketch.UpdateChunk | include/datasketches/cuda/detail/theta/sketch_impl.hpp:285-300 | an attempt within the budget is an update with the chunk; an overflow, which takes more surviving keys than the budget, and a device failure change nothing |
| ThetaSketch.Sketch.CommitChunk | include/datasketches/cuda/detail/theta/sketch_impl.hpp:315-328 | the retry loop ends with the whole of its final chunk committed, or with the old state exactly if the device fails; each retry follows an overflow and has the size that its survivor count asks for |
| ThetaSketch.Sketch.Advance | include/datasketches/cuda/detail/theta/sketch_impl.hpp:314-335 | a round starts from the predicted size, commits or leaves the state alone, and measures the duplicate factor at the theta it screened with |
| ThetaSketch.Sketch.Update | include/datasketches/cuda/detail/theta/sketch_impl.hpp:303-336 | all keys are committed unless the device fails, and then the state is that of updating with the committed chunks; no buffer exceeds k + budget; chunks are long; each retry for a chunk follows an overflow and takes at most half the keys |
| ThetaSketch.Sketch.Merge | include/datasketches/cuda/detail/theta/sketch_impl.hpp:339-351 | union as specified, a seed error exactly when the seeds differ and the other is not empty, the old state exactly if the device fails |
| ThetaSketch.Sketch.Intersect | include/datasketches/cuda/detail/theta/sketch_impl.hpp:354-362 | intersection as specified, with its empty shortcuts and seed error, or the old state exactly if the device fails |
| ThetaSketch.Sketch.ANotB | include/datasketches/cuda/detail/theta/sketch_impl.hpp:365-369 | difference as specified, with its shortcuts and seed error, or the old state exactly if the device fails |
| ThetaSketch.Sketch.RetainMatching | include/datasketches/cuda/detail/theta/sketch_impl.hpp:372-388 | keeps exactly the hashes below both thetas whose membership in the other matches |
| ThetaSketch.Sketch.Reset | include/datasketches/cuda/detail/theta/sketch_impl.hpp:390-393 | the initial state of the configured sampling |
| ThetaSketch.Sketch.Serialize | include/datasketches/cuda/detail/theta/sketch_impl.hpp:409-413 | the image of the abstract state, or nothing exactly if the copy to the host fails |
| ThetaSketch.Sketch.Deserialize | include/datasketches/cuda/detail/theta/theta.inl:153-166 | a valid sketch in the state the image describes, nothing if the image or lg_k is refused, a failure exactly if the device fails |
| ThetaSketch.Sketch.LoadCompact | include/datasketches/cuda/detail/theta/sketch_impl.hpp:415-431 | the state the image describes; refused exactly if its entries exceed k |
| ThetaSpec.RunSound | include/datasketches/cuda/detail/theta/sketch_impl.hpp:303-393 | over every run of update, merge, intersect, a_not_b, reset, and saving and loading into any k, the state is valid, retains exactly the true set below theta, and is flagged empty only if that set is empty |
| ThetaSpec.IntersectExactly | include/datasketches/cuda/detail/theta/sketch_impl.hpp:354-388 | every case of intersection: unchanged, rejected, reset, or keeping the common hashes below both thetas, with the smaller theta, and empty exactly if both thetas are maximal and nothing is kept |
| ThetaSpec.ANotBExactly | include/datasketches/cuda/detail/theta/sketch_impl.hpp:365-388 | every case of difference: unchanged, rejected, or keeping the hashes missing from the other below both thetas, with the smaller theta, and empty exactly if both thetas are maximal and nothing is kept |
| ThetaSpec.MergeExactly | include/datasketches/cuda/detail/theta/sketch_impl.hpp:339-351 | an empty operand changes nothing, seeds are compared otherwise, and then the smallest k hashes of both below both thetas stay |
| ThetaSpec.ResetIsFresh | include/datasketches/cuda/detail/theta/sketch_impl.hpp:390-393 | a reset gives back the sketch as constructed |
| ThetaSpec.EstimationModeExactly | include/datasketches/cuda/detail/theta/theta.inl:76-80 | estimation mode means that some hash is left open; an empty sketch is never in it, even if sampled |
| ThetaSpec.ExactOutsideEstimationMode | include/datasketches/cuda/detail/theta/theta.inl:76-80 | outside estimation mode the retained hashes are the true set itself |
| ThetaSpec.UpdateSplits | include/datasketches/cuda/detail/theta/sketch_impl.hpp:313-335 | updating with xs and then ys is updating with their concatenation |
| ThetaSpec.BatchingIsIrrelevant | include/datasketches/cuda/theta.hpp:92-103 | the final state depends only on the set of hashes, not on calls, order or repetition |
| ThetaSpec.CanonicalForm | include/datasketches/cuda/theta.hpp:38-42 | an updated sketch has its starting theta and everything below it, or is full with theta one of the hashes seen |
| ThetaSpec.MergeIsUnionExactly | include/datasketches/cuda/detail/theta/sketch_impl.hpp:339-351 | merging sketch(ys) into sketch(xs) is sketch(xs ++ ys) for all inputs exactly under the stated condition on k and p |
| ThetaSpec.MergeLowersTheta | include/datasketches/cuda/detail/theta/sketch_impl.hpp:346-350 | inputs on which merging is not union when the condition fails |
| ThetaSpec.MergeCommutes | include/datasketches/cuda/detail/theta/sketch_impl.hpp:339-351 | merging equally configured sketches is commutative |
| ThetaSpec.MergeAssociates | include/datasketches/cuda/detail/theta/sketch_impl.hpp:339-351 | and associative |
| ThetaSpec.MergeIdempotent | include/datasketches/cuda/detail/theta/sketch_impl.hpp:339-351 | and idempotent |
| LittleEndian.ReadWritten | include/datasketches/cuda/detail/theta/preamble.hpp:50-62 | reading back a written fixed-width value |
| LittleEndian.WriteRead | include/datasketches/cuda/detail/theta/preamble.hpp:50-62 | writing a read value restores the bytes |
| LittleEndian.Digit | include/datasketches/cuda/detail/theta/preamble.hpp:50-54 | byte i of a stored number is its i-th digit to base 256, lowest first |
| LittleEndian.DigitsRead | include/datasketches/cuda/detail/theta/preamble.hpp:56-62 | a number read has the stored bytes as its digits |
| LittleEndian.WriteAt | include/datasketches/cuda/detail/theta/preamble.hpp:50-54 | overwrites exactly the addressed bytes |
| ThetaImage.SerializeCompact | include/datasketches/cuda/detail/theta/preamble.hpp:64-93 | writes the canonical image, for each of the three preamble lengths |
| ThetaImage.ImageLayout | include/datasketches/cuda/detail/theta/preamble.hpp:64-93 | the written image byte by byte: fixed bytes, flags, preamble length, and little-endian seed hash, count, theta and entries at their offsets |
| ThetaImage.WrittenLayout | include/datasketches/cuda/detail/theta/preamble.hpp:64-93 | the same for an image in any frame the parser may meet |
| ThetaImage.ParseCompact | include/datasketches/cuda/detail/theta/preamble.hpp:95-177 | the first fault in the order of the checks, or the parsed image |
| ThetaImage.FirstFault | include/datasketches/cuda/detail/theta/preamble.hpp:95-177 | the fault reported is the first, in the order of the checks, that the bytes show; bytes that show none are accepted |
| ThetaImage.ParseExactly | include/datasketches/cuda/detail/theta/preamble.hpp:95-177 | a byte string is accepted as an image exactly if it is that sound image in some fitting frame |
| ThetaImage.RoundTrip | include/datasketches/cuda/detail/theta/preamble.hpp:64-177 | parsing a serialized image gives it back |
| ThetaImage.ImageInjective | include/datasketches/cuda/detail/theta/preamble.hpp:64-93 | different contents have different images |
| ThetaImage.Reserialize | include/datasketches/cuda/detail/theta/preamble.hpp:64-177 | serializing an accepted image keeps what it parses to, and its bytes exactly if its frame was canonical |
| ThetaReload.DeserializedValid | include/datasketches/cuda/detail/theta/sketch_impl.hpp:415-431 | whatever is accepted loads into a valid sketch |
| ThetaReload.Reloaded | include/datasketches/cuda/detail/theta/sketch_impl.hpp:409-431 | a reload into any k gives the sketch with the same flag, effective theta and entries, unsampled; refused exactly if the entries exceed k |
| ThetaReload.ReloadFaithfulExactly | include/datasketches/cuda/detail/theta/theta.inl:153-166 | reloaded into any k that holds the entries, the sketch stays indistinguishable under all updates exactly if the original was not an empty sampled sketch and either k is unchanged or theta is at most the smaller k + 1 |
| ThetaReload.InterchangeableExactly | include/datasketches/cuda/detail/theta/theta.inl:153-166 | under update, merge, intersect, a_not_b and reset together the reloaded sketch stays indistinguishable exactly if the original was unsampled and k is its own; a reset and one update show any difference |
| HllReduction.ReduceHll8 | include/datasketches/cuda/detail/hll/reduction_state.hpp:80-108 | under any rounding that keeps 53-bit multiples of 2^-31, the first sum and the zero count come out exact |
| HllReduction.HarmonicConserved | include/datasketches/cuda/detail/hll/reduction_state.hpp:70-74 | without rounding the two accumulators add up to the harmonic sum of the registers |
| HllReduction.AccumulatorSplit | include/datasketches/cuda/detail/hll/reduction_state.hpp:70-74 | a register from 32 on leaves its initial unit in the first sum, and the second takes it back |
| HllReduction.SplitBySizeExactly | include/datasketches/cuda/detail/hll/reduction_state.hpp:70-72 | each sum is the share of its own registers exactly if no register has reached 32 |
| HllReduction.AllThirtyTwosMissplit | include/datasketches/cuda/detail/hll/reduction_state.hpp:70-72 | a register array on which either sum is off by one unit per register |
| HllReduction.ReducedExactly | include/datasketches/cuda/detail/hll/reduction_state.hpp:80-108 | the whole result in terms of the registers: first sum, rounded sum over the registers from 32 on, minimum 0, number of zeros |
| HllReduction.CurMinExactly | include/datasketches/cuda/detail/hll/reduction_state.hpp:47-51 | the stored minimum, and the count at it, are the true ones exactly if some register is 0 |
| HllReduction.AllOnesMisreported | include/datasketches/cuda/detail/hll/reduction_state.hpp:47-51 | a register array on which both are wrong |
| HllReduction.Kxq0Bounded | include/datasketches/cuda/detail/hll/reduction_state.hpp:42-44 | every intermediate first sum is a whole number of units between 0 and its start |
| HllReduction.OrderIrrelevant | include/datasketches/cuda/detail/hll/reduction_state.hpp:91-105 | the first sum and the zero count do not depend on register order |
| HllReduction.EmptyExactly | include/datasketches/cuda/detail/hll/sketch_impl.hpp:264-268 | the sketch reports empty exactly if all registers are zero |
| HllInterpolation.FindStraddle | include/datasketches/cuda/detail/hll/composite_finalizer.cuh:105-120 | the interval of x, or an end interval outside the table |
| HllInterpolation.PassesThroughKnots | include/datasketches/cuda/detail/hll/composite_finalizer.cuh:122-147 | the curve passes through its four points |
| HllInterpolation.CubicReproduced | include/datasketches/cuda/detail/hll/composite_finalizer.cuh:122-147 | every polynomial of degree at most three is reproduced at every x |
| HllInterpolation.FourRoots | include/datasketches/cuda/detail/hll/composite_finalizer.cuh:122-147 | a cubic with four distinct roots is zero, so the interpolant is unique |
| HllInterpolation.InterpolateComposite | include/datasketches/cuda/detail/hll/composite_finalizer.cuh:149-167 | the value at x of the one cubic through the four knots of the window; the interval of x is the middle one of the window except at the ends of the table; a knot gives exactly its y value |
| HllBlob.AssemblePreamble | include/datasketches/cuda/detail/hll/preamble.hpp:70-100 | the 40 bytes of the preamble layout |
| HllBlob.PreambleLayout | include/datasketches/cuda/detail/hll/preamble.hpp:70-100 | the preamble byte by byte: fixed bytes, flag bits, mode, and little-endian numbers at their offsets |
| HllBlob.FieldsRoundTrip | include/datasketches/cuda/detail/hll/preamble.hpp:70-164 | parsing an assembled preamble gives its fields back |
| HllBlob.PreambleRoundTripExactly | include/datasketches/cuda/detail/hll/preamble.hpp:70-164 | reassembling a parsed preamble gives the same bytes exactly if the reserved bits are clear |
| HllBlob.Serialize | include/datasketches/cuda/detail/hll/sketch_impl.hpp:131-160 | preamble with recomputed fields, then one byte per register |
| HllBlob.SavedLayout | include/datasketches/cuda/detail/hll/sketch_impl.hpp:131-160 | bytes and flags of a saved sketch; flagged empty exactly if every register is 0; the registers follow |
| HllBlob.SavedNumbers | include/datasketches/cuda/detail/hll/sketch_impl.hpp:136-149 | the stored sums, zero count, HIP value and auxiliary count in terms of the registers |
| HllBlob.LoadBlob | include/datasketches/cuda/detail/hll/sketch_impl.hpp:166-206 | the first fault, or the register array |
| HllBlob.FirstFault | include/datasketches/cuda/detail/hll/sketch_impl.hpp:166-206 | the fault reported is the first, in the order of the checks, that the blob shows; a blob that shows none gives its precision and registers |
| HllBlob.BlobRoundTrip | include/datasketches/cuda/detail/hll/hll.inl:145-153 | loading a serialized sketch restores precision and registers |
| HllBlob.LoadedArray | include/datasketches/cuda/detail/hll/sketch_impl.hpp:187-198 | an accepted blob always holds a register array of a supported precision |
| HllBlob.DerivedFieldsIgnored | include/datasketches/cuda/detail/hll/hll.inl:145-153 | the stored sums, counts, minimum, auxiliary sizes and flags play no part in loading |
| HllBlob.ReserializeExactly | include/datasketches/cuda/detail/hll/sketch_impl.hpp:131-206 | saving a loaded blob reproduces its bytes exactly if its preamble says what the registers imply and the reserved bits are clear |
| HllBlob.AllButFlagsAndHipSurviveExactly | README.md:180 | a reload changes no byte outside the flags and the HIP field exactly if the other fields of the blob are what its registers imply; it changes none at all exactly if those two are the saved ones too |
| HllBlob.DocumentedSumSurvivesExactly | README.md:180 | a blob that stores the first sum as documented keeps it through a reload exactly if no register has reached 32 |
| HllBlob.SomeOtherByteLost | README.md:180 | every accepted blob has a neighbour with the same load that loses another byte |

## Left out

- ThetaSketch.Sketch.Update: does not repeat the schedule of chunk sizes, which the contracts of Advance and CommitChunk state round by round.
- Tuning.NextChunkExactly: its doubles are real numbers; that a prediction comes true for the keys to come is not promised.
- HllReduction.ReduceHll8: the second accumulator rounds, so it is stated as the rounded sum in register order, not as an exact value.
- HllInterpolation.InterpolateComposite: over real numbers; the rounding of the evaluation is not modelled, and the table rows are assumed strictly increasing.
- MurmurHash3, seed hash computation and key normalisation: hashes and seed hashes are parameters. Update takes the keys' hashes as a sequence, so the error for a negative iterator range does not arise.
- Streams, memory resources and host/device copies: buffers are sequences, a failing call is a nondeterministic failure that leaves the method.
- Size arithmetic in 64 bits: a batch holds fewer than 2^63 keys, so doubling a chunk size cannot wrap; sizes are unbounded naturals here.
- The internals of CUB and of the cudax HyperLogLog add and merge kernels; the latter is not part of this model, nor is its own limit on the precision when a blob is loaded.
- composite_estimate, raw_estimate, harmonic_number and bitmap_estimate: they need logarithms and fitted constants; so do the statistical bounds of both sketches.
- The interpolation table values.
- HllUtil.hpp of datasketches-cpp is not part of this repository; the byte offsets and masks of the HLL preamble are those of its serialization version 1.
- The accessors and forwarding handles, which would only add easy members.
