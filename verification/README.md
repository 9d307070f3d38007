# MXBM verification

A Dafny model of the host-side logic of the MXBM miner and proofs of what that logic is
for. Kernels, hashes, sockets and the driver library are opaque; everything the host
decides is written out. `dafny verify dfyconfig.toml` checks the whole project.

- `Numbers`, `Common`: powers of two, bit operations on naturals, little-endian digit
  sequences, shared datatypes, selections from a sequence.
- `RecordSets`, `Pipeline`, `GpuSolver`, `SpecRuns`: the speculative entry cache. Record
  sets keep stale records behind their counters; the solver class binds, fills, flips and
  seeds as the original does, under any abort and throw pattern. Main result: speculation is
  invisible, for every sequence of calls, and it is effective.
- `BeamPrimitives`, `IndexPacking`, `BeamVerify`, `RoundTables`: the BeamHash III limb
  arithmetic, the index packer, the in-place verifier against a recursive definition, and why
  the pipeline may store only significant words.
- `Difficulty`: the multi-limb multiply and compare.
- `RowBucketGeom`, `RowBucketAlloc`, `RowBucketLadder`: the footprint arithmetic, the
  first-fit ladder and the allocation, which live in different functions and agree; where the
  ladder's order is not an order by size.
- `NonceLanes`, `Hex`, `Engine`, `EngineRuns`, `EngineAborts`, `EngineSubmits`: nonces, hex
  strings, and the mailbox protocol as a state machine over all interleavings: what may be
  submitted, what an abort hits, and that what was found is submitted.
- `Routing`, `DevFee`: the job router, its composition with the engine, fee accrual and the
  scheduler as steps.
- `Series`, `Stats`, `StatsRuns`, `StatsFee`, `StatsLedger`: running summaries, the two
  ledgers, pruned windows against full history, and what every displayed figure counts.
- `OcList`, `OcListMeaning`, `Overclock`, `OverclockValues`, `OverclockOrder`, `OverclockRig`,
  `OverclockRepeated`: per-GPU lists, what an apply sets, restore, and why each device is
  applied once.
- `Watchdog`, `Thermal`, `RigPolls`, `Transport`: history-level specifications of three small
  state machines, and both pollers on one rig.

Doubles are reals, words are naturals with their wrap-around written out, clocks are inputs,
threads are steps. Environment overrides are taken as unset.

Where the code and its own comments disagree the model follows the code:

- src/miner/engine.h:76-81 says a newly switched-to job's first solve always runs clean.
  on_job posts before it aborts, so that abort can hit the new job's first solve
  (`EngineAborts.AbortCanHitTheNewJob`); exactly when: `EngineAborts.OwnAbortHitsIff`,
  `EngineAborts.RunsCleanIffNothingOwed`.
- "Once a different job is posted only the call in progress can submit" and "stop wins over
  starting another solve" (src/miner/engine.cpp:165, 184-192): between the locked test and
  process_job the worker has already decided on one more call
  (`EngineRuns.LateCallCanSubmit`, `EngineRuns.StopDoesNotAlwaysWin`); exactly when such a call
  can submit: `EngineRuns.LateCallSubmitsIff`, `EngineRuns.CheckPassesIff`.
- src/gpu/round_pipeline.cpp:350-351 says a refused rung is stepped down from; after three of
  the rungs, and only those, the next one needs more memory
  (`RowBucketLadder.NextRungIsLargerIff`).
- src/miner/stats.h:19-26 keeps the fee's shares apart throughout; they share the queue of 64
  pending submits, and an overflow can evict the user's
  (`StatsFee.OverflowLosesTheUsersShare`; exactly when: `StatsFee.PushIsInvisibleIff`,
  `StatsFee.NeverHarmfulIff`).
- src/miner/engine.cpp:22-25 says a failing hex decode leaves its output alone; on a bad digit
  the bytes in front of it have been written (`Hex.FromHexStrict`). Its callers drop the buffer.
- The arena metadata requested is 12 bytes more than the footprint counts; the footprint's 64
  bytes of slack cover it (`RowBucketAlloc.TryAllocRowbucket`).

## Model

| member | source | states |
|---|---|---|
| RecordSets.FreshScatterVisible | src/gpu/round_pipeline.cpp:840-897 | Zeroing counters and pool cursors and emptying the chains is enough: whatever stale records buckets and pools still hold, a scatter and a link show exactly the new records, in order, each in its bucket while that or the pool of its half has room. |
| RecordSets.ArriveInPool | kernels/opencl/lds.cl:1480-1495 | A record at a full bucket joins the bucket's visible records exactly while its half's pool has room, and the pool holds exactly what its half has spilled. |
| RecordSets.LinkShows | kernels/opencl/lds.cl:1522-1536 | Linking emptied chains shows each bucket's own pool records and no other's. |
| RecordSets.NothingDropped | kernels/opencl/lds.cl:1480-1495 | A scatter whose overflow fits the pools of both halves leaves in every bucket all records emitted for it, in order, behind what was there. |
| RecordSets.FirstCapSurvive | kernels/opencl/lds.cl:1480-1495 | Whatever overflows, a bucket keeps its first cap records in order, and without a pool exactly those. |
| RecordSets.HalvesAreRanges | src/gpu/round_pipeline.cpp:251-266 | The first pool takes the excess of the buckets below the half, the second that of the others. |
| Pipeline.SearchSpelledOut | src/gpu/round_pipeline.cpp:769-1109 | The reference search written out stage by stage: every seed once, five rounds alternating between the sets, and the rows and level recovery reads, for both record layouts. |
| Pipeline.FateMeans | src/gpu/round_pipeline.cpp:769-1109 | A call finishes if and only if no poll reads a set flag and nothing throws up to the terminal round; it is aborted if and only if some poll is the first to read one with no throw before it. |
| Pipeline.GatedKeeps | src/gpu/gpu_solver.cpp:178-190 | What the gate is specified to return: each accepted candidate as often as it was recovered, no rejected one, in the order recovered. |
| GpuSolver.ExpectedMeans | src/gpu/gpu_solver.cpp:101-213 | The required answer in terms of the search: exception exactly on a throw that matters, nothing on an abort or without survivors, otherwise exactly the recovered candidates the verifier accepts. |
| Pipeline.EntryBatches | src/gpu/round_pipeline.cpp:865-897 | Two consecutive batches of the seed range enter exactly what one batch of both would. |
| GpuSolver.Solver.Entry | src/gpu/round_pipeline.cpp:865-897 | The batched entry pass, link included, leaves the destination set showing this prePow's entry output, whatever the set held before. |
| GpuSolver.Solver.EnterSeeds | src/gpu/round_pipeline.cpp:865-897 | Hit or miss, round 1's input shows this prePow's entry output. |
| GpuSolver.Solver.RunRound | src/gpu/round_pipeline.cpp:929-1021 | A round on the right input set leaves the other set showing the next level of the search, keeps its input, adds its own back-reference row, and touches the spec set only to replace it by the next nonce's entry output. |
| GpuSolver.Solver.RunPipeline | src/gpu/round_pipeline.cpp:769-1109 | For any abort and throw pattern: how the call ends, when the next entry was seeded and with what, and that a finished call's survivors and back-reference rows are those of the reference search. |
| GpuSolver.Solver.Predict | src/gpu/gpu_solver.cpp:125-137 | The hit test, the learned stride and the consumed prediction as a function of the previous call's fields. |
| GpuSolver.Solver.Gate | src/gpu/gpu_solver.cpp:157-191 | For every candidate, it is returned as often as it was recovered if the verifier accepts it and never otherwise, and the order is kept. |
| GpuSolver.Solver.Solve | src/gpu/gpu_solver.cpp:101-213 | Every call returns what the reference search returns for its own input and nonce, hit or miss: every returned solution is valid, and a finished call returns every valid recovered candidate; a hit is taken only when the spec set already showed this call's entry output; a valid prediction always names what the spec set shows. |
| GpuSolver.Solver.TerminalRound | src/gpu/round_pipeline.cpp:1051-1109 | The terminal round's survivors and the rows recovery will read are those of the reference search. |
| GpuSolver.Solver.LastRow | src/gpu/round_pipeline.cpp:929-1021 | With the terminal round's row written, recovery reads exactly this search's rows although each row keeps stale entries behind them. |
| SpecRuns.ExpectedIgnoresSpec | src/gpu/gpu_solver.cpp:114-155 | The required answer of a call is the same with and without speculation. |
| SpecRuns.SolveAll | src/gpu/gpu_solver.cpp:101-213 | Any sequence of calls, with any nonces, job changes, aborts and throws: every answer is the one a solver that never speculates gives to that call alone. |
| SpecRuns.HitPattern | src/gpu/gpu_solver.cpp:125-155 | From any state, which calls of a constant-stride walk hit: the first if and only if it was predicted, the second if and only if the stride is known after the first, every later one. |
| SpecRuns.RunsStayConsistent | src/gpu/gpu_solver.cpp:129-155 | After any run a pending prediction is for the last input, one learned stride past the last nonce. |
| SpecRuns.FreshWalk | src/gpu/gpu_solver.cpp:129-155 | A fresh solver hits exactly from the third call of a walk on. |
| SpecRuns.NewInputCostsOneMiss | src/gpu/gpu_solver.cpp:129-155 | After any history with the stride learned, a walk on a new input misses exactly once. |
| SpecRuns.SameInputJumpCostsTwoMisses | src/gpu/gpu_solver.cpp:129-155 | The same input re-entered off the walk misses exactly twice: the jump is mislearned as the stride. |
| SpecRuns.TwoCallsTeachTheStride | src/gpu/gpu_solver.cpp:130-132 | Two calls of one input one stride apart teach the stride, aborted or not. |
| SpeculationEffective.EngineWalkIsWalk | src/miner/engine.cpp:85-92 | The nonces an engine tries on one job form a constant-stride walk, through counter wrap. |
| SpeculationEffective.FirstJob | src/miner/engine.cpp:85-92 | On the miner's first job every solve from the third on is a hit, and no earlier one. |
| SpeculationEffective.LaterJob | src/miner/engine.cpp:85-92 | A later job with a new input and a prefix of the same length costs exactly one miss, however the job before it ended. |
| NonceLanes.BuildNonce | src/miner/engine.cpp:49-67 | The byte loops write the prefix nibbles high half first and the counter little-endian in the whole bytes after them. |
| NonceLanes.NonceIsSum | src/miner/engine.cpp:49-67 | Read little-endian the nonce is the prefix number plus the counter shifted past it, cut at 64 bits. |
| NonceLanes.NonceKeepsPrefix | src/miner/engine.cpp:42-67 | Every nonce carries every prefix nibble, whatever the counter. |
| NonceLanes.SameNonceIff | src/miner/engine.cpp:62-66 | Two counters give one nonce if and only if they agree modulo 256^(8 - ceil(prefix/2)). |
| NonceLanes.NoTwoAttemptsRepeat | src/miner/engine.cpp:71-92 | Attempts of different lanes, or different attempts of one lane, try different nonces while the counters fit the bytes the prefix leaves. |
| NonceLanes.NonceSteps | src/miner/engine.cpp:90-92 | One step of the 64-bit counter moves the nonce by stride times 256^ceil(prefix/2) modulo 2^64, wrap or not. |
| NonceLanes.StrideDependsOnLength | src/miner/engine.cpp:62-66 | That distance depends on the prefix only through its length. |
| Hex.DigitValues | src/miner/engine.cpp:12-44 | The sixteen digits stand for 0 to 15 in that order, and no other character is a digit. |
| Hex.ToHex | src/miner/engine.cpp:12-20 | The loop writes two digits a byte, high half first. |
| Hex.FromHexStrict | src/miner/engine.cpp:26-40 | Succeeds exactly on the right number of digits and nothing else, and then decodes them; on a bad digit the bytes in front of its pair are already written, on a wrong length nothing is. |
| Hex.DecodeEncode | src/miner/engine.cpp:12-40 | Decoding inverts encoding, for every byte string. |
| Hex.EncodeDecode | src/miner/engine.cpp:12-40 | Encoding inverts decoding, for every string that decodes. |
| Hex.WellFormedIffDecodes | src/miner/engine.cpp:185-188 | The worker mines a job exactly when its input is the encoding of 32 bytes. |
| Hex.NonceHexKeepsPrefix | src/miner/engine.cpp:42-67 | The nonce submitted, in hex, begins with the pool's prefix character for character, and an odd prefix is followed by a 0. |
| BeamPrimitives.CollisionBitsAreLow24 | src/beamhash/bh3_primitives.h:33 | The masked low word is the 448-bit element modulo 2^24. |
| BeamPrimitives.ApplyMix | src/beamhash/bh3_primitives.h:35-55 | The mixing loop computes the mix whose meaning MixBufferIsWholeSum, MixWordIsSum and OneWordChangesMix give, and rewrites word 0 only. |
| BeamPrimitives.RotlMovesBits | src/beamhash/bh3_primitives.h:5 | Rotating a word by k moves bit b to bit (b + k) mod 64, for every word, k and b. |
| BeamPrimitives.RotationsAreMultiples | src/beamhash/bh3_primitives.h:50 | The eight rotations are 29(i + 1) mod 64, pairwise different. |
| BeamPrimitives.MixWordIsSum | src/beamhash/bh3_primitives.h:50-54 | The mixed word is the sum of the eight words rotated by the literal amounts, modulo 2^64, rotated by 24. |
| BeamPrimitives.OneWordChangesMix | src/beamhash/bh3_primitives.h:50-54 | Two buffers that differ in exactly one word, whichever, mix to different words. |
| BeamPrimitives.OneBitMixes | src/beamhash/bh3_primitives.h:50-54 | Bit b of word i alone comes out as bit b + 29(i + 1) + 24 mod 64. |
| BeamPrimitives.RoundOneSeesTheLeaf | src/beamhash/bh3_primitives.h:35-55 | In round 1, where the leaf fills word 7, different leaves give different word 0 and leave the rest alone. |
| BeamPrimitives.MixBufferIsSum | src/beamhash/bh3_primitives.h:35-49 | With bits at and above Lmix zero and leaves below 2^25, or-ing n leaves into the eight words is adding leaf i times 2^(Lmix + 25 i), modulo 2^512. |
| BeamPrimitives.MixBufferIsWholeSum | src/beamhash/bh3_primitives.h:35-49 | Stopping at the padding count changes nothing: the buffer is the element plus all the leaves, modulo 2^512. |
| BeamPrimitives.Combine | src/beamhash/bh3_primitives.h:57-67 | The three limb loops compute ((A xor B) div 2^24) mod 2^Lout on 448-bit numbers. |
| BeamPrimitives.CombinedValue | src/beamhash/bh3_primitives.h:57-67 | The same identity for the value the verifier's tree is built from, with the bound 2^Lout. |
| BeamPrimitives.SignificantWords | src/gpu/round_pipeline.cpp:44-56 | An element below 2^Lout is determined by its first ceil(Lout/64) words; the others are zero. |
| IndexPacking.PackIndices | src/beamhash/bh3_primitives.h:69-77 | The bit loop packs 32 indices of 25 bits into exactly 100 bytes and leaves the rest of the buffer alone. |
| IndexPacking.UnpackIndices | src/beamhash/bh3_primitives.h:79-88 | The bit loop reads those indices back. |
| IndexPacking.PackedBits | src/beamhash/bh3_primitives.h:69-77 | Bit b of index k is bit 25k + b of the byte string, low bit of each byte first. |
| IndexPacking.UnpackedBits | src/beamhash/bh3_primitives.h:79-88 | And is read back from there. |
| IndexPacking.UnpackPack | src/beamhash/bh3_primitives.h:69-88 | Unpacking inverts packing for every 32 indices below 2^25. |
| IndexPacking.PackUnpack | src/beamhash/bh3_primitives.h:69-88 | Packing inverts unpacking for every 100-byte string. |
| BeamVerify.IsZero | src/beamhash/bh3_verify.cpp:10-13 | The word loop decides whether the 448-bit element is zero. |
| BeamVerify.Distinct | src/beamhash/bh3_verify.cpp:14-17 | The nested loops decide whether two index lists share no index. |
| BeamVerify.SeedCounters | src/beamhash/bh3_primitives.h:27-31 | Word k of an index's element is the hash at counter 8 index + k: consecutive within an index, shared by no two words of any two indices. |
| BeamVerify.PairKindMeans | src/beamhash/bh3_verify.cpp:43-48 | Each failure kind of a pair in terms of the mixed values' low 24 bits, common indices and first indices, in check order. |
| BeamVerify.ValidTreeMeans | src/beamhash/bh3_verify.cpp:36-61 | A tree is valid if and only if all its indices differ and at every node the halves agree in their low 24 bits and the left one starts lower. |
| BeamVerify.ClassifySolution | src/beamhash/bh3_verify.cpp:19-65 | The report is the first failure in round-major, left-to-right, check order; NonZero only when every pair passed; None only when the root is zero too. |
| BeamVerify.RunRound | src/beamhash/bh3_verify.cpp:36-61 | One in-place round either stops at the first failing pair with its first failing check or leaves exactly the next level of the tree. |
| BeamVerify.ReasonIsUnique | src/beamhash/bh3_verify.cpp:19-65 | That meaning determines the report: no two reasons fit one candidate. |
| BeamVerify.LevelValidIffRoundsPass | src/beamhash/bh3_verify.cpp:34-62 | The first r rounds pass if and only if every subtree of height r is valid by the recursive definition. |
| BeamVerify.AcceptedIffValidTree | src/beamhash/bh3_verify.cpp:34-65 | The loop accepts exactly the recursive definition of a valid five-level tree with a zero root. |
| BeamVerify.IsValidSolution | src/beamhash/bh3_verify.cpp:67-70 | Returns true exactly for 104-byte solutions valid by the recursive definition. |
| BeamVerify.ValidTreeIsOrdered | src/beamhash/bh3_verify.cpp:43-48 | In a valid tree no index repeats and the first leaf is the strict minimum of its subtree. |
| BeamVerify.SwapClassHasOneValidTree | src/beamhash/bh3_verify.cpp:47-48 | Of all trees that differ by swapping siblings at any levels at most one is valid. |
| BeamVerify.CanonicalForm | src/beamhash/bh3_verify.cpp:43-57 | Accepted solutions, for whatever headers and nonces, whose index trees differ only by swapping siblings agree on their first 100 bytes. |
| RoundTables.TablesAgree | src/gpu/round_pipeline.cpp:25-56 | The literal round tables equal the verifier's formulas, and each round reads as many words as the one before wrote. |
| RoundTables.BuildFits | src/gpu/round_pipeline.cpp:44-56 | No element of any index tree reaches bit Lout of the round that made it. |
| RoundTables.MixingIsAddition | src/beamhash/bh3_primitives.h:35-55 | At every node of every index tree the mixing buffer is the element plus its leaves modulo 2^512, with the table's padding count. |
| RoundTables.OutWordsLoseNothing | src/gpu/round_pipeline.cpp:44-52 | Storing outwords_for(r) words of a round's output and widening with zeros gives the output back. |
| RoundTables.InWordsLoseNothing | src/gpu/round_pipeline.cpp:44-56 | Nor does reading inwords_for(r) words of a mixed input lose anything. |
| Difficulty.HashLimbsValue | src/pow/difficulty.cpp:9-11 | The eight limbs denote the big-endian number of the 32 hash bytes. |
| Difficulty.MulStep | src/pow/difficulty.cpp:13-17 | Each multiply step keeps digits written plus carry equal to the product so far and never wraps at 64 bits. |
| Difficulty.BelowIffEveryLimbIs | src/pow/difficulty.cpp:19-28 | A 288-bit number is below 2^bitpos if and only if every limb is below its own cut, for every bit position. |
| Difficulty.MulLtPow2 | src/pow/difficulty.cpp:6-29 | The carry loop and the top-down comparison decide hash times mantissa < 2^bitpos for every 32-bit mantissa and every bit position. |
| Difficulty.IsTargetReached | src/pow/difficulty.cpp:30-37 | Reached if and only if packed is at most 232 times 2^24 and hash times (2^24 + mantissa) < 2^(280 - order). |
| Difficulty.ReachedIsMonotone | src/pow/difficulty.cpp:30-37 | Clearing a packed target clears every smaller packed target, across orders. |
| Difficulty.PowerTargetsCountZeros | src/pow/difficulty.cpp:30-37 | At the power-of-two target of order n the test asks for exactly n leading zero bits, and above order 232 nothing passes. |
| Difficulty.ReachedInUnits | src/pow/difficulty.cpp:30-46 | In general the hash times the displayed difficulty has to stay below 2^256. |
| RowBucketGeom.CapIsMeanPlusRoot | src/gpu/rowbucket_geom.cpp:8-18 | A bucket's capacity is its mean, 32, and the whole part of sigma times the mean's root. |
| RowBucketGeom.FbSetStride | src/gpu/rowbucket_geom.h:39-46 | The running maximum is the widest record any round writes to the set, and one of them attains it. |
| RowBucketGeom.SlotsCoverCapacity | src/gpu/rowbucket_geom.cpp:20-27 | A set's slots cover every element with 31 to spare per bucket, and are even in number. |
| RowBucketGeom.PlainBytes | src/gpu/rowbucket_geom.cpp:20-56 | The footprint of every record format in bytes per slot, per bucket and per element, with every buffer stored. |
| RowBucketGeom.ReplayBytes | src/gpu/rowbucket_geom.cpp:39-55 | The same for a backend that reconstructs pairings at recovery. |
| RowBucketGeom.ImplicitBitsRungs | src/gpu/rowbucket_geom.h:54-56 | The implicit-bits pack is for the packed rungs of 16 bucket bits and the low-power rung, and no other. |
| RowBucketGeom.RbGeometryFor | src/gpu/rowbucket_geom.cpp:132-184 | First fit: the low-power rung exactly below a 130 W cap when it fits, else the first rung that fits of those whose formats the backend has, else the marked fallback and none of them fits. What fitting means on buffers: RowBucketAlloc.PickGeometry. |
| RowBucketGeom.HalfSetBinds | src/gpu/rowbucket_geom.cpp:122-130 | For every rung and capacity half the larger set exceeds a back-reference row, so it is what the single-allocation ceiling binds on. |
| RowBucketGeom.DenseSixteenIsSmaller | src/gpu/rowbucket_geom.cpp:91-120 | On a full seed layer dense (16,1) with the implicit-bits pack needs no more than dense packed (15,2), in total and in its largest buffer. |
| RowBucketGeom.RefusedRungIsUnreachable | src/gpu/rowbucket_geom.cpp:132-184 | So the ladder never hands the OpenCL backend the rung its allocator refuses. |
| RowBucketGeom.PackedFourteenIsUnreachable | src/gpu/rowbucket_geom.cpp:101 | Packed (14,3) is never chosen when quad and dense rungs are on offer. |
| RowBucketAlloc.RungFitsIffBuffersFit | src/gpu/rowbucket_geom.cpp:170-182 | The ladder accepts a rung if and only if half its larger set is within the ceiling and the buffers the allocator would ask for, with their spare and the slack, are within the memory. |
| RowBucketAlloc.PickGeometry | src/gpu/round_pipeline.cpp:142-187 | The picked rung's buffers fit and those of every rung above it do not; when nothing is picked, none's do: against the usable figure as it is, or the card's total less 1 GiB. |
| RowBucketAlloc.AllocationIsWithin | src/gpu/round_pipeline.cpp:237-266 | Half the larger set within the ceiling means every buffer is, and for rungs without a side plane only then. |
| RowBucketAlloc.RowbucketViable | src/gpu/round_pipeline.cpp:142-213 | Viable exactly when the picked rung's buffers fit with nothing held back, and whenever the ladder has an answer the check agrees. |
| RowBucketAlloc.TryAllocRowbucket | src/gpu/round_pipeline.cpp:218-301 | The requested buffers sum to the footprint's total less a stated spare, to the byte; each is at most the ceiling whenever half the larger set is; refused exactly for a packed arena rung without the implicit-bits pack. |
| RowBucketAlloc.SetsFitTheSingle | src/gpu/round_pipeline.cpp:237-266 | Each ping-pong set, pool regions included, is at most the footprint's largest-buffer figure, and two halves are the whole plus the second pool half. |
| RowBucketAlloc.SmallBuffersFitTheSingle | src/gpu/round_pipeline.cpp:267-288 | Every buffer that never splits, the side plane, reference rows, counters and arena metadata, is at most half that figure. |
| RowBucketAlloc.AcceptedRungAllocates | src/gpu/round_pipeline.cpp:189-301 | Ladder, viability check and allocator agree for every capacity and device: the buffers of an accepted rung fit the promised memory and none exceeds the ceiling; on a full layer none is refused. |
| RowBucketAlloc.OctoNeverSpeculates | src/gpu/round_pipeline.cpp:320-336 | An octo rung never has a spec set. |
| RowBucketLadder.NextRungIsLargerIff | src/gpu/round_pipeline.cpp:350-383 | On every full layer the rung tried after a refusal needs more memory than the refused one if and only if that was dense (16,1) packed, dense (16,1) quad or dense (15,2) quad. |
| RowBucketLadder.NextSingleIsLargerIff | src/gpu/rowbucket_geom.cpp:91-120 | So does its largest buffer, at every step but the one from dense (15,2) packed to (16,1) quad. |
| RowBucketLadder.QuadSingleDependsOnCapacity | src/gpu/rowbucket_geom.cpp:91-120 | At that step the largest buffer grows below 2^27 elements, the shipping capacity included, and shrinks from 2^28 on. |
| Engine.StepInv | src/miner/engine.cpp:85-246 | Every step of poster, stop and worker keeps the mailbox invariant: the worker holds one single post, news is pending exactly when a newer post exists, calls take posts in order, only the last call can have begun late. |
| Engine.RunInv | src/miner/engine.cpp:85-246 | So does every run, for every interleaving. |
| EngineRuns.SubmissionsComeFromOnePost | src/miner/engine.cpp:85-105 | Every submission of every run carries id, origin, difficulty and prefix nibbles of one single post and the nonce of its call's own place on the lane. |
| EngineSubmits.FoundIsSubmitted | src/miner/engine.cpp:98-105 | After a passing staleness check exactly the found candidates that clear the post's difficulty are submitted, all of them, in order: with those still to come while the loop runs, and for good once the call is left, in every run. |
| EngineSubmits.StaleIsNotSubmitted | src/miner/engine.cpp:98 | A call whose check fails never submits anything. |
| EngineSubmits.NoSolveNoSubmission | src/miner/engine.cpp:85-105 | Nor does one whose solve was cut short or threw. |
| EngineSubmits.KeepsMining | src/miner/engine.cpp:192-245 | Without a post or a stop the worker never lets go of its job, and every call it begins is for it. |
| EngineSubmits.TakesTheNewest | src/miner/engine.cpp:163-188 | A waking worker takes the newest post, mines it if its input decodes, and waits on if not. |
| EngineSubmits.NewsIsSeen | src/miner/engine.cpp:196-244 | With news or a stop every locked test sends the worker back to the mailbox, the news unread. |
| EngineSubmits.FailuresCountTheStreak | src/miner/engine.cpp:211-230 | The failure count is the number of throws since a call last returned. |
| EngineSubmits.RetryDelay | src/miner/engine.cpp:248-256 | The wait is the base, doubled per failure beyond the first, up to 30 times it. |
| EngineRuns.AfterStop | src/miner/engine.cpp:141-246 | After a stop no call begins but the one the worker had already decided on, and every later submission belongs to that one call or the call in flight. |
| EngineRuns.AfterNewerJob | src/miner/engine.cpp:107-246 | After any newer post at most one call can still submit for the held entry: the one in flight or the one already decided on. |
| EngineRuns.SupersededSubmitsNothing | src/miner/engine.cpp:98-105 | A call whose staleness check comes after the post of a different job submits nothing, unless that id is posted again before it. |
| EngineRuns.NewerPostIsPast | src/miner/engine.cpp:107-124 | From every reachable state a newer post puts the held one in the past, and a different job not yet checked is one that will be dropped. |
| EngineRuns.CheckPassesIff | src/miner/engine.cpp:258-261 | The staleness check passes if and only if the newest post carries the held id. |
| EngineRuns.LateCallSubmitsIff | src/miner/engine.cpp:193-243 | With news or a stop already there, a call that has yet to begin can still submit for the held post if and only if the worker stands between its locked test and process_job. |
| EngineRuns.LateCallCanSubmit | src/miner/engine.cpp:193-232 | A reachable state where it stands there with a different job posted. |
| EngineRuns.StopDoesNotAlwaysWin | src/miner/engine.cpp:141-155 | And one where it stands there with stop requested. |
| EngineAborts.FlagMeansAbortSinceBegin | src/miner/engine.cpp:124-131 | While a solve runs the abort flag is set if and only if some abort came after the solve began. |
| EngineAborts.OwnAbortHitsIff | src/miner/engine.cpp:116-132 | The abort a post owes hits a solve of that same post if and only if it was still owed as the solve began and no longer is while it runs: the solve began between post and abort. |
| EngineAborts.RunsCleanIffNothingOwed | src/miner/engine.cpp:116-132 | A solve about to begin, first of its job or not, is sure to run clean until something newer comes if and only if no abort is owed. |
| EngineAborts.AbortCanHitTheNewJob | src/miner/engine.cpp:116-132 | A run in which a job is taken before its own abort, which then cuts its first solve short. |
| EngineRuns.NoTwoCallsRepeat | src/miner/engine.cpp:71-92 | Over any two runs of any two engines of a rig, across job changes, two calls under one prefix try different nonces while the prefix has room, unless they are the same call. |
| Routing.JobRouter.OfferJob | src/miner/devfee.cpp:126-138 | One critical section: the slot holds the offer, dispatched exactly when its origin is active. |
| Routing.JobRouter.Activate | src/miner/devfee.cpp:140-146 | One critical section: no-op on the active origin, else switch and dispatch the cached job if any. |
| Routing.JobRouter.Drop | src/miner/devfee.cpp:158-163 | One critical section: the origin's job is gone, everything else stays. |
| Routing.SlotsHoldLatestOffers | src/miner/devfee.cpp:118-163 | After any history a slot is present exactly while its pool has an undropped offer, and holds that offer. |
| Routing.FreshMeansRecentOffer | src/miner/devfee.cpp:165-169 | After any history a job is fresh if and only if its pool's newest undropped offer is that recent. |
| Routing.SolversFollowTheActivePool | src/miner/devfee.cpp:118-163 | After any history, if the active pool has a live job, the last dispatch is that job under its own prefix and origin. |
| Routing.DispatchesWereOffered | src/miner/devfee.cpp:126-146 | Nothing is dispatched that some pool did not offer with that prefix and origin. |
| Routing.DispatchesExactly | src/miner/devfee.cpp:126-163 | The solvers are sent something exactly on an offer of the active pool and on a change to the other pool with a live job, and what: that offer, that job. |
| Routing.SentOncePerDispatch | src/miner/devfee.cpp:126-163 | Over any history they are sent as many jobs as there were such events. |
| SolutionsGoHome.EverySolutionGoesHome | src/main.cpp:1270-1341 | Router and engine composed, for any histories: every submitted solution goes to the connection that offered its job, with a nonce carrying the prefix that connection assigned, even when another pool is active by then. |
| FeeAccrual.SliceIsNearest | src/miner/devfee.cpp:37-40 | The round length is rate times cycle to within half a second. |
| FeeAccrual.Accrual.AddMiningTime | src/miner/devfee.cpp:93-96 | The debt stays that of the history with this stretch of mining added. |
| FeeAccrual.Accrual.Settle | src/miner/devfee.cpp:106-110 | The debt stays that of the history with this spending added, floored at zero. |
| FeeAccrual.Accrual.SliceDue | src/miner/devfee.cpp:98-102 | Due exactly when a whole positive slice is owed. |
| FeeAccrual.DebtIsLargestSuffixBalance | src/miner/devfee.cpp:91-112 | After any history the debt is the largest balance of any suffix, the empty one included. |
| FeeScheduler.StepInv | src/miner/devfee.cpp:234-298 | Debt plus settled time is exactly the rate's share of credited time; full rounds never exceed what was settled; the fee pool is active exactly during a round; a round starts only with a whole slice owed. |
| FeeScheduler.NeverAboveTheRate | src/miner/devfee.cpp:234-298 | After any run completed full rounds times the slice, plus the debt, is at most rate times credited time, at most rate times time passed. |
| FeeScheduler.OnlyEarningTimeIsCredited | src/miner/devfee.cpp:242-260 | Time is credited only on a tick with a live user job and a recent attempt, never more than has passed and never more than 2 s at once. |
| FeeScheduler.TickCreditsExactly | src/miner/devfee.cpp:244-262 | An earning tick credits exactly the time passed, or one second past 2 s, owes the rate's share of it, and enters a round exactly when a whole slice is then owed; any other tick only moves the clock. |
| FeeScheduler.RoundRuns | src/miner/devfee.cpp:267-297 | A due round with a fee job no older than 120 s switches to the fee pool and back and takes its length off the debt, down to nothing. |
| FeeScheduler.UnspentStaysOwed | src/miner/devfee.cpp:267-298 | A round is deferred exactly when the fee job is missing or older than 120 s, and then owes as before; a shortened round leaves owed exactly what it did not spend. |
| FeeScheduler.RoundsAreLossless | src/miner/devfee.cpp:287-290 | After any run the solvers were last sent the newest live job of the user's pool, or of the fee pool inside a round, including jobs that arrived during it. |
| Series.Series.Add | src/miner/stats.cpp:18-25 | n, mean, sum of squared deviations, minimum and maximum are exactly those of all values added. |
| Series.Welford | src/miner/stats.cpp:22-24 | One update of the running mean and squared deviations is exact. |
| Stats.Stats.RecordAttempt | src/miner/stats.cpp:65-84 | Deque, rig total and the device's own row after one attempt, out-of-range devices counted in the total only. |
| Stats.Stats.RecordSubmit | src/miner/stats.cpp:86-91 | The submit is queued with its own origin's target; the oldest beyond 64 go. |
| Stats.Stats.RecordShareFound | src/miner/stats.cpp:93-109 | The ring logs both origins, the best-share figures move for user shares only. |
| Stats.Stats.RecordResult | src/miner/stats.cpp:111-151 | The verdict of one origin, and the oldest pending submit of that origin removed and credited; what the figures then count is StatsLedger. |
| Stats.Stats.RecordJob | src/miner/stats.cpp:153-161 | A fee job changes only the fee target. |
| Stats.Stats.SetDeviceLabels | src/miner/stats.cpp:40-50 | Fresh rows, one per label, one at least. |
| Stats.Stats.CountWindows | src/miner/stats.cpp:203-219 | The counting loop computes, rig-wide and per device, the candidates and attempts of the 15 s and 60 s windows over the deque. |
| StatsRuns.WindowsMatchFullHistory | src/miner/stats.cpp:65-84 | Every window up to 15 minutes holds on the pruned deque the very attempts it holds on the full history. |
| StatsRuns.AttemptedWithinMeans | src/miner/stats.cpp:184-190 | With a monotone clock attempted_within answers for the full history, for any age. |
| StatsLedger.PrunedFrontIsRecent | src/miner/stats.cpp:65-68 | Pruning leaves nothing older than 15 minutes in front. |
| StatsLedger.WindowsAreSelections | src/miner/stats.cpp:207-219 | A window is exactly the attempts no older than its length, in order, and a device's part of it exactly that device's. |
| StatsRuns.RowsCountTheirDevice | src/miner/stats.cpp:70-84 | Each row counts exactly its own device's attempts and candidates since the last relabelling. |
| StatsRuns.CandidatesAreConserved | src/miner/stats.cpp:70-84 | The rows plus out-of-range devices make up all candidates since the labels were set, and the rig total all there ever were. |
| StatsLedger.VerdictsAreCounts | src/miner/stats.cpp:111-121 | Over any run each origin's accepted, stale and rejected are the numbers of its results with code 1, code 3 and any other. |
| StatsLedger.RowsCountTheirResults | src/miner/stats.cpp:123-143 | Over any run each device row counts, by those kinds, the user results since the last relabelling whose submit came from that device. |
| StatsLedger.BankedIsAcceptedUnits | src/miner/stats.cpp:126-128 | Over any run the banked units are the sum over the user's accepted round trips of their submits' units. |
| StatsLedger.LatencyIsNewestTrip | src/miner/stats.cpp:144-149 | Over any run the latency is that of the newest user round trip, -1 before the first. |
| StatsLedger.MillisecondsTruncate | src/miner/stats.cpp:147-149 | In whole milliseconds cut toward zero. |
| StatsLedger.BestIsLargest | src/miner/stats.cpp:93-106 | Over any run the best share is the largest share of the user's, 0 without one. |
| StatsLedger.RowBestIsLargest | src/miner/stats.cpp:107-108 | And each row's that of its device since the last relabelling. |
| StatsLedger.TargetsAreNewestJobs | src/miner/stats.cpp:86-161 | A submit or share is held to the newest job of its own origin. |
| StatsLedger.LogIsNewestShares | src/miner/stats.cpp:96-102 | The share log is the newest 128 shares of either origin, each with its target of that moment. |
| StatsLedger.SubmitsAreConserved | src/miner/stats.cpp:86-151 | Without an overflow every submit of an origin was matched or is pending, each once and in order. |
| StatsLedger.JobLineAndRowNames | src/miner/stats.cpp:40-161 | The job line is the newest user job's, and the rows are named by the labels last given. |
| StatsFee.PushIsInvisibleIff | src/miner/stats.cpp:86-91 | A push is invisible to the user's own queue if and only if it evicts nothing, evicts a fee submit, or the whole queue is the user's. |
| StatsFee.PopIsOwnHead | src/miner/stats.cpp:123-150 | A result removes the head of its own origin's queue and nothing of the other's. |
| StatsFee.MatchingIsFifo | src/miner/stats.cpp:86-151 | After any run the pending submits of an origin are the tail of that origin's submits: matching is first in, first out. |
| StatsFee.UserLedgerIgnoresFee | src/miner/stats.cpp:86-161 | While no eviction is harmful, deleting every fee event from a run leaves verdicts, banked units, best share, latency, job line and every device row unchanged. |
| StatsFee.NeverHarmfulIff | src/miner/stats.cpp:86-151 | The condition is exact: no eviction is harmful if and only if at every point of the run the user's queue is what it would be without the fee. |
| StatsFee.NoOverflowIsHarmless | src/miner/stats.cpp:86-91 | A run whose pending queue never overflows satisfies that condition. |
| StatsFee.OverflowLosesTheUsersShare | src/miner/stats.cpp:86-151 | A run with 64 fee submits behind a user's, whose acceptance then banks nothing where without the fee it banks 5 units. |
| OcList.OcParseList | src/gpu/overclock.cpp:128-174 | The token loop decides malformed, skipped or given, for every string and index. |
| OcList.OcSpecAt | src/gpu/overclock.cpp:176-181 | The loop builds that many skips and the value. |
| OcList.SpecAtRoundTrips | src/gpu/overclock.cpp:128-181 | Reading oc_spec_at(i, v) gives v at i and skipped everywhere else, for every long v the flag admits. |
| OcListMeaning.ParseListMeans | src/gpu/overclock.cpp:128-174 | A list is rejected exactly when it is empty or some entry, whichever GPU's, cannot be read, for the reason of the first such entry; else a GPU gets the value of its own entry, nothing for * or past the end. |
| OcListMeaning.EntryMeans | src/gpu/overclock.cpp:146-166 | Everything an entry can be read as: *, digits with an explicit sign only where signs are admitted, and which of the other cases is reported how. |
| OcListMeaning.NumberIsDecimal | src/gpu/overclock.cpp:159 | Digits are read in decimal notation. |
| OcListMeaning.SaturateMeans | src/gpu/overclock.cpp:159 | And cut to 64 bits. |
| OcListMeaning.TrimMeans | src/gpu/overclock.cpp:142-144 | Trimming takes all blanks off both ends and nothing else. |
| OcListMeaning.FieldsOfJoined | src/gpu/overclock.cpp:134-170 | Splitting at commas inverts joining. |
| OcListMeaning.JoinedFields | src/gpu/overclock.cpp:134-170 | And joining inverts splitting: no character of the list is lost. |
| OcListMeaning.ListRoundTrips | src/gpu/overclock.cpp:128-174 | A list of any values and skips, printed with commas, reads back for every GPU of it and beyond. |
| Overclock.ApplyIsUndoable | src/gpu/overclock.cpp:183-444 | From clean bookkeeping one apply of any request, under any refusals, leaves bookkeeping that remembers every changed setting and claims no other. |
| Overclock.RestoreUndoes | src/gpu/overclock.cpp:493-514 | With accepted writes a restore returns limit and offsets, clears exactly the locks applied and hands back exactly the fans applied. |
| Overclock.PowerComesBackIff | src/gpu/overclock.cpp:511-512 | The power limit comes back if and only if the old one was not 0 or it never moved. |
| Overclock.FansSoFar | src/gpu/overclock.cpp:381-389 | Exactly the fans that took are set, in order, and the loop ends only at the last fan or at a refusal. |
| OverclockValues.ApplySetsWhatIsAsked | src/gpu/overclock.cpp:183-444 | With accepted writes each list sets its own knob at the value it gives the device, brought into what the card reports, fans at most 100 percent; a knob not asked for or not reported stays. |
| OverclockValues.ClampIsNearest | src/gpu/overclock.cpp:116-124 | The clamped value is the one of the band nearest to the value asked for, and no other is. |
| Overclock.ApplyOnlyOn | src/gpu/overclock.cpp:415-444 | An apply writes to its own device only. |
| Overclock.RestoreOnlyOn | src/gpu/overclock.cpp:502-513 | So does each device's part of a restore. |
| Overclock.SecondRestoreWritesNothing | src/gpu/overclock.cpp:493-514 | A second restore writes nothing, whether or not the first one's writes were accepted. |
| OverclockOrder.WritesAreInTheBand | src/gpu/overclock.cpp:116-124 | A requested limit or offset reaches the driver unchanged inside the reported band and as the violated end outside it. |
| OverclockOrder.AppliesInOrder | src/gpu/overclock.h:77-80 | Every apply writes power limit, core offset, memory offset, core lock, memory lock, fan, in that order. |
| OverclockOrder.RestoresInReverse | src/gpu/overclock.h:77-80 | Every restore writes in the reverse order. |
| OverclockRig.Overclocker.Want | src/gpu/overclock.cpp:95-114 | A malformed list asks nothing and is reported as failed; an absent or skipped one asks nothing and is silent. |
| OverclockRig.Overclocker.ApplyPowerLimit | src/gpu/overclock.cpp:183-234 | Success is reported exactly when the driver took the write, clamped only when another value than the requested was sent, unclamped only when that one was, a refusal with its reason, silence exactly when nothing was asked, unsupported exactly when the card does not report the knob; the old limit is remembered only on success. |
| OverclockRig.Overclocker.ApplyCoreOffset | src/gpu/overclock.cpp:245-307 | The same for the core offset. |
| OverclockRig.Overclocker.ApplyMemOffset | src/gpu/overclock.cpp:245-307 | The same for the memory offset. |
| OverclockRig.Overclocker.LockCoreClock | src/gpu/overclock.cpp:311-347 | The same for the core lock, which remembers only that it is held. |
| OverclockRig.Overclocker.LockMemClock | src/gpu/overclock.cpp:311-347 | The same for the memory lock. |
| OverclockRig.Overclocker.OcApply | src/gpu/overclock.cpp:415-444 | The imperative apply changes cards, bookkeeping and write log of its device as the knob functions say, nothing else, and reports every knob that was asked for in order; an index past the arrays changes nothing and says so. |
| OverclockRig.Overclocker.ApplyFanSpeed | src/gpu/overclock.cpp:349-411 | The fan loop stops at the first refusal and records how many took. |
| OverclockRig.Overclocker.OcRestore | src/gpu/overclock.cpp:493-514 | The imperative restore walks all 16 devices, or does nothing when disabled. |
| OverclockRig.RestoreBringsTheRigBack | src/gpu/overclock.cpp:415-514 | One apply per device and a restore: every card as before with exactly the applied locks and fans cleared, uncalled devices never written, nothing pending, a second restore silent. |
| OverclockRig.StockRigComesBackExactly | src/gpu/overclock.cpp:415-514 | With no lock held and fans on their curve before, the rig is exactly as it was. |
| OverclockRepeated.RestoredIff | src/gpu/overclock.h:72-81 | After any applies to one device and an accepted restore the limit is the original if and only if no power write landed or the card stood at the original, nonzero, when the last one was sent; an offset, if and only if none landed or it stood at the original then. |
| OverclockRepeated.OneApplyIsEnough | src/gpu/overclock.h:72-81 | With one apply the card always stood there. |
| Watchdog.Monitor.Poll | src/miner/watchdog.cpp:34-83 | One poll steps every listed device by the per-device rule, starts new ones unseen, and reports exactly those the rule reports, in order. |
| Watchdog.ReportedExactlyWhenFirstStalled | src/miner/watchdog.cpp:45-82 | With a monotone clock a device is reported at a poll if and only if its count stood still over polls spanning the stall time with mining active and not paused, for the first time in that episode. |
| Watchdog.ReportsOncePerEpisode | src/miner/watchdog.cpp:58-81 | Between two reports of a device its count changed, and neither poll was idle. |
| Thermal.Guard.Poll | src/miner/thermal.cpp:42-77 | One poll moves each flag by the hysteresis rule and calls back exactly for the flags that moved, in order. |
| Thermal.PausedIsLastDecisive | src/miner/thermal.cpp:58-68 | With start below stop the flag is set if and only if the last decisive reading was hot. |
| Thermal.LimitsMustBeApart | src/miner/thermal.cpp:58-68 | The flag means the last decisive reading on every history if and only if start is below stop (or there is no stop). |
| Thermal.OverlappingLimitsFlap | src/miner/thermal.cpp:64-68 | With start at or above stop a steady reading between them flips the flag at every poll. |
| Thermal.CallbacksAlternate | src/miner/thermal.cpp:68-75 | Pause and resume callbacks of a device alternate, starting with a pause, and end in the flag's state. |
| WatchdogRuns.StateOfDevice | src/miner/watchdog.cpp:43-82 | Whatever joins or leaves the list, a device's state is that of its own polls since it last joined. |
| WatchdogRuns.LogIsExact | src/miner/watchdog.cpp:34-83 | Over any run of polls each poll reports exactly the listed devices that are then stalled for the first time in their episode, each once. |
| ThermalRuns.LogIsExact | src/miner/thermal.cpp:42-77 | Over any run of polls a device's callbacks are exactly the switches of its own flag, pause first and alternating. |
| ThermalWatch.RunRig | src/miner/watchdog.cpp:74 | Both pollers on one rig, interleaved at will: flags, callbacks, device states and reports are those of their own runs, the watchdog seeing as paused what the guard answers at that moment. |
| ThermalWatch.HotDeviceIsNeverReported | src/miner/watchdog.cpp:70-77 | For every interleaving, a device whose last decisive reading before a watchdog poll was hot is not reported by it. |
| Transport.Connection.SendLine | src/stratum/transport.cpp:117-130 | For any partial writes: true means line and newline are on the wire, false means closed with a proper prefix of them. |
| Transport.Connection.RecvLine | src/stratum/transport.cpp:132-151 | The buffer loop returns the next line or closes, and the buffer never exceeds 64 KiB + 4096. |
| Transport.RecvIsNextLine | src/stratum/transport.cpp:132-151 | The stream's next line is delivered if and only if there is one and no read boundary catches more than 64 KiB of it unfinished; the rest of the stream stays for later. |
| Transport.ShortLinesAreSafe | src/stratum/transport.cpp:144 | A line of at most 64 KiB is never caught, however fragmented. |
| Transport.LongLinesAreCaught | src/stratum/transport.cpp:144 | A line of 64 KiB + 4096 or more always is. |
| Transport.FragmentationIsInvisible | src/stratum/transport.cpp:132-151 | The lines of a stream are delivered exactly and in order, for every fragmentation, when each has at most 64 KiB. |
| Transport.ReceiveInvertsSend | src/stratum/transport.cpp:117-151 | recv_line inverts send_line on lines without newline or trailing carriage return, for every fragmentation. |
| Transport.OneReturnIsDropped | src/stratum/transport.cpp:117-151 | A line sent with a carriage return behind it arrives without exactly that one character and the others as they are, in any mixture and fragmentation. |
| Transport.UnsendableIsNotInverted | src/stratum/transport.cpp:117-151 | And on no other line of that length. |

## Left out

- Kernel bodies, and with them the radix-sort path: kernels are functions of what the host binds. Arrival order inside a launch is fixed to index order, so the model has one result where the device may permute records within a bucket.
- BLAKE2b, SipHash-2-4 and SHA-256: opaque functions.
- The consumer's limit of 64 pool records per bucket is kernel code, part of the opaque round. The side plane is part of the record it belongs to.
- Drop counters and profiling output of the pipeline; of a split set only which pool a bucket spills to is modelled, not the two buffers' addresses.
- GpuSolver.Solver.Solve: a throw during recovery leaves the spec set as it was; recovery binds no spec buffer, but a lost device is not modelled.
- RowBucketGeom.CapIsMeanPlusRoot: exact square root cut to an integer instead of double rounding; the forced-sigma override is taken as unset.
- RowBucketAlloc.RowbucketViable: environment overrides of geometry and record format are taken as unset.
- RowBucketLadder.QuadSingleDependsOnCapacity: between 2^27 and 2^28 elements, about four to eight times the shipping layer, nothing is stated.
- The low-power rung (17,0) enters the ladder's answer but not the OpenCL allocation results, since that backend passes no power limit.
- Engine: on_attempt and on_solver_error; restarting an engine after stop; a submit function that throws.
- FeeScheduler.StepInv: has() and attempted_within() are read in one step with the crediting, as neither can change what the other reads; a negative rate is not considered.
- Engine.StepInv: a solver may return whatever candidates it likes; that it returns none when it sees the flag is the CutShort step.
- Stats: the dashboard snapshot beyond its windows, telemetry folding, uptime and session rates; the standard deviation's square root.
- Overclock messages; the signal handler interrupting a restore half way.
- Overclock.ApplyIsUndoable: the driver reports the card's own current limit and offsets; a setting changed by another program between read and write is not modelled.
- ThermalWatch.RunRig: each poll is one step; a temperature poll that falls inside a watchdog poll is ordered before or after it per device.
- Transport: connecting, TLS and certificate checks.
- CLI and configuration parsing, budget clamps, failover rotation, console, HTTP, CUDA and Metal solvers.
