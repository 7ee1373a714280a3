# Proofs about SuperSLM's exact kernels

SuperSLM is an integer-only inference engine whose every fast form must equal a simple one, bit for bit. This project
models that engine's core in Dafny and proves the equalities, the rounding bounds and the protocol invariants it
relies on:

- the 128-bit word facility, the division-free reciprocal, the requantisation chain, the square root, the sigmoid
  lookup and the softmax row, scalar and vector (`Wide128`, `Reciprocal`, `Requant`, `ISqrt`, `Silu`, `Lanes`,
  `SoftmaxExp`, `SoftmaxRow`, `SoftmaxLaws`);
- the key/value page allocator, first as classes whose verbs update their fields (`PageAllocator`), then as one
  function per mutex section (`PageModel`, `PageTables`), then under every interleaving of those sections (`PageLaws`,
  `PageProtocol`, `PageSafety`);
- the parallel-for protocol as a state machine of mutex sections and counter fetches (`ParallelFor`);
- the int8 matrix kernels: dot rows per tier, the tiled packer and micro-kernels, and the probability-times-value
  accumulate (`DotRow`, `TiledPack`, `TiledGemm`, `ProbV`);
- the tokenizer from its checkpoint to text and back: the table builder, the TOK1 blob's writer and reader, UTF-8,
  normalisation, pre-tokenisation, byte-pair merging, encoding and decoding (`TokBuild`, `Tok1`, `Tok1Io`, `Utf8`,
  `Nfc`, `NfcLaws`, `Pretokenize`, `Bpe`, `Tokenizer`, `TokenizerLaws`), and the forced-text table of a schema (`ForcedGraph`, `ForcedTable`);
- the cross-language exact arithmetic of the QK channel table, converter against loader (`ExactScale`, `QkDivide`,
  `QkScale`, `QkTable`);
- streaming SHA-256 with both compressions (`Sha256Spec`, `Sha256Compress`, `Sha256Stream`, `Sha256`);
- damped-greedy decoding: the n-gram anti-LM, the top-k selection, the two scoring bodies and the exact ratio
  (`AntiLm`, `AntiLmLaws`, `TopK`, `DampedGreedy`, `ExactRatio`).

`Arith`, `Sums`, `FiniteSets` and `Wrappers` hold what several of them share. Machine integers are mathematical
integers with every wrap, truncation and shift written out; a register is a sequence of lanes; C++'s `>>` on signed
values and masks are Dafny's floor division and remainder by powers of two.

Check everything with `dafny verify dfyconfig.toml`.

## Model

| member | source | states |
|---|---|---|
| Wide128.UMulExact | src/intmath.cpp:118-130 | The four-partial-product multiply of two 64-bit words denotes exactly their integer product. |
| Wide128.UMulWideExact | src/intmath.cpp:131-136 | Multiplying a two-word value by a word is exact whenever the product fits 128 bits. |
| Wide128.UShrLow64 | src/intmath.cpp:147-156 | The narrowing shift by any k up to 127 is the floor quotient by 2^k reduced modulo 2^64. |
| Wide128.SMulExact | src/intmath.cpp:173-185 | The sign-and-magnitude multiply denotes exactly the signed product of any two int64 values. |
| Wide128.SGeExact | src/intmath.cpp:200-205 | The word comparison decides the order of the two signed integers, both ways. |
| Wide128.SShrExact | src/intmath.cpp:210-214 | The arithmetic narrowing shift is floor division by 2^k whenever that quotient fits int64. |
| Reciprocal.DynamicScaleReciprocal | src/intmath.cpp:330-391 | For every mantissa in [2^30, 2^31) the seed, three floored Newton steps and two unit corrections return floor(2^62/Dn + 1/2), the half-up rounded reciprocal defined without the algorithm. |
| Reciprocal.RoundedByResidual | src/intmath.cpp:330-391 | A candidate y is that reciprocal if and only if its doubled residual 2(2^62 - y Dn) lies in [-Dn, Dn). |
| Reciprocal.ReciprocalRange | src/model.cpp:1070-1073 | Every reciprocal of a canonical mantissa lies in [2^31 + 1, 2^32], and both ends are attained. |
| Requant.MaxAbsReduceWide | src/intmath.cpp:485-508 | The result bounds every magnitude of the row below 2^63 and, in a nonzero row without the int64 minimum, is one of them; it is 1 on an all-zero row and 2^63 - 1 beside the int64 minimum. |
| Requant.NormalizeExact | src/intmath.cpp:323-328 | Normalising loses nothing: D' 2^62 = Dn 2^(62-s) with Dn canonical and s in [-1, 30], for every D' up to 2^31. |
| Requant.ElementCode | src/intmath.cpp:534-550 | For every element of magnitude at most 2^31 the 128-bit element form returns the clamped, half-away-rounded quotient 127 x R / 2^(62-s). |
| Requant.ElementCodeExactly | include/superslm/intmath.h:243-253 | For an arbitrary int64 element the form returns the promised code if and only if the rounded magnitude is below 2^64 or its low 64 bits are at least 127. |
| Requant.ElementCodeWitness | include/superslm/intmath.h:248-253 | A concrete int64 element gets 125 where the promised code is 127, so the totality claim of the header is false outside the chain. |
| Requant.CodeError | src/intmath.cpp:534-550 | Every code the element form computes with the chain's own reciprocal and shift is within 1/2 + 127 * 2^-32 of 127 x / D'. |
| Requant.MaximumGetsFullScale | src/intmath.cpp:534-550 | A nonzero element of the row's largest magnitude gets exactly 127 or -127, by its sign. |
| Requant.LaneCodes | src/intmath.cpp:553-654 | Both vector lanes, with their split 32-bit products and two-stage shifts, give the element form's code for every element of magnitude at most 2^31. |
| Requant.RequantRowWide | src/intmath.cpp:655-672 | On every kernel each output cell is the element form's code of its own input, vector steps and tail alike. |
| Requant.RequantChain | include/superslm/checked_chain_funnel.h:420-440 | Refuses exactly the rows with a magnitude past 2^31 and writes nothing then; otherwise every code is within 1/2 + 127 * 2^-32 of 127 x over the row's own largest magnitude, elements of that magnitude get exactly 127 or -127, and zeros get 0. |
| ISqrt.ISqrtIterates | src/intmath.cpp:684-700 | Every one of the 32 iterates is the root of the leading digits at its weight, the last is the floor square root, and no step leaves int64. |
| ISqrt.ISqrt | src/intmath.cpp:702-706 | root^2 <= n < (root + 1)^2 for every n in [0, 2^63). |
| Silu.RoundsAway | src/intmath.cpp:271-290 | The mask-and-threshold shift rounds to nearest with ties away from zero, for every integer and exponent. |
| Silu.SiluIsMonotone | src/silu_lut.cpp:16-67 | For every non-decreasing table and admitted scale the lookup never decreases in the code, stays between the table's two ends, and equals an end at every saturated position. |
| Silu.InterpolationBounds | src/silu_lut.cpp:40-67 | Both nodes read are in the table, the product fits int64, and the interpolated step lies between zero and the gap of the two nodes. |
| Silu.NodesAreExact | src/silu_lut.cpp:40-67 | All 1025 nodes are reproduced exactly, 4096 positions apart. |
| Silu.NearTheLine | src/silu_lut.cpp:60-66 | Between two nodes the value is within half a unit of the straight line through them. |
| Silu.PositionIs | src/silu_lut.cpp:16-40 | The position is 2^21 plus code m 2^(e+17): exactly for a left shift, within half a sub-node for a right one. |
| Silu.PlacedFits | src/silu_lut.cpp:16-40 | Neither the left-shift nor the rounding-shift branch leaves [-2^62, 2^62]. |
| SoftmaxExp.IExpConstruct | src/intmath.cpp:762-850 | For all four int64 arguments the ordered checks decide the domain, and an accepted distance is taken apart into at most 30 whole multiples of ln 2 and a remainder below one; from 30 on it is 30 and no remainder. |
| SoftmaxExp.ExpNear | src/intmath.cpp:722-730 | Nearer than 30 ln 2, the exponential of z ln 2 + r is ((qB - r)^2 + qC) / 2^z, rounded down. |
| SoftmaxExp.ExpFar | include/superslm/intmath.h:288-291 | From 30 ln 2 on the exponential stays at its value there, (qB^2 + qC) / 2^30. |
| SoftmaxExp.ExpHalves | src/intmath.cpp:785-790 | One ln 2 farther the exponential is half, rounded down, at every distance up to 30 ln 2. |
| SoftmaxExp.EvaluateConstruction | src/intmath.cpp:722-730 | A validated construction evaluates to the exact integer exponential when it is representable, and to its low 64 bits when the outcome said it is not. |
| SoftmaxExp.EstimateBelow | src/intmath.cpp:1019-1057 | The floored-reciprocal estimate of the quotient by ln 2 is never above it and at most one below, and its product stays below 2^61. |
| SoftmaxExp.ReduceExact | src/intmath.cpp:1059-1088 | The AVX2 and AVX-512 reductions, with their different corrections, both return the floor quotient and remainder. |
| SoftmaxExp.ExpLanesExact | src/intmath.cpp:1062-1083 | Every lane of both vector exponentials equals the exact integer exponential of the distance to the row maximum, for admitted constants. |
| SoftmaxRow.SoftmaxFastGuard | src/intmath.cpp:1019-1042 | The guard admits exactly the rows of admitted width, constants and score range, and then returns the row's maximum. |
| SoftmaxRow.AdmittedRow | src/intmath.cpp:1019-1042 | On every admitted row the shipped body's numerators are the exact exponentials, each well formed and bounded, with a positive sum within the lane limits. |
| SoftmaxRow.ProbLanesExact | src/intmath.cpp:1084-1104 | For every numerator and denominator in range, both vector quotient forms return the floor of e 2^15 / d after their one correction. |
| SoftmaxRow.SoftmaxRowShipped | src/intmath.cpp:1309-1378 | The scalar row writes the floored Q15 shares of its numerators and returns true exactly when every element is well formed. |
| SoftmaxRow.SoftmaxRowFast | src/intmath.cpp:1105-1246 | The three-pass vector bodies, with padded last steps and in-place passes, write the floored shares of the exact exponentials of the old row. |
| SoftmaxRow.SoftmaxRowQ15 | src/intmath.cpp:1249-1378 | Whichever body is selected, the same integers are written and the same verdict returned, for every row that meets the documented caller gate; input and output may be one array. |
| SoftmaxRow.OutputsAreBounded | src/intmath.cpp:1309-1378 | Every output lies in [0, 2^15] and a row's outputs sum to at most 2^15. |
| SoftmaxLaws.NearElement | src/intmath.cpp:1335-1366 | A row element nearer than 30 ln 2 is the low 64 bits of its shifted quadratic when that lies between 0 and the peak, and is refused otherwise. |
| SoftmaxLaws.FarElement | src/intmath.cpp:1335-1366 | A row element at least 30 ln 2 below the maximum is the peak over 2^30, and well formed. |
| SoftmaxLaws.ElementHalves | src/intmath.cpp:1335-1366 | One ln 2 farther a row element is half, whenever it did not wrap. |
| SoftmaxLaws.LanesHalve | src/intmath.cpp:1062-1083 | Both vector lanes halve with every ln 2, up to 30 of them. |
| SoftmaxLaws.LanesFar | src/intmath.cpp:1162-1180 | Both vector lanes stay at the peak over 2^30 from 30 ln 2 on. |
| SoftmaxLaws.NumeratorsAtEnds | src/intmath.cpp:1335-1366 | In an admitted row the maximum has the peak qB^2 + qC, and scores 30 ln 2 below it have the peak over 2^30. |
| SoftmaxLaws.NumeratorsHalve | src/intmath.cpp:1335-1366 | In an admitted row a score one ln 2 below another has half its numerator, up to 30 ln 2 below the maximum. |
| SoftmaxLaws.SharesAreFloors | src/intmath.cpp:1367-1377 | Every output p satisfies p D <= 2^15 e < (p + 1) D, with D the row's total or 1. |
| SoftmaxLaws.GateIs | src/intmath.cpp:1288-1294 | For a usable peak, the caller's gate is width times peak below 2^63. |
| PageAllocator.PagePool.constructor | src/kv_pages.cpp:104-133 | A new pool has every page free with page 0 on top of the stack, all counts zero and nothing dirty. |
| PageAllocator.PagePool.CountDownEntries | src/kv_pages.cpp:27-41 | The in-place compaction leaves in the table's front exactly the pages that reached zero, in order, and leaves the table beyond them as it was. |
| PageAllocator.PagePool.PoisonIfDirty | src/kv_pages.cpp:42-73 | The coalesced fills poison exactly the bytes of the listed dirty pages, clear exactly those flags and change no other byte. |
| PageAllocator.PageHolder.Create | src/kv_pages.cpp:148-188 | Reserve entry i is the i-th page from the top of the old free stack, which loses exactly those; each drawn page has count one, and nothing is mapped. |
| PageAllocator.PageHolder.MapNext | src/kv_pages.cpp:189-201 | Succeeds exactly when an entry and a reserve page are left; then the reserve's last page is the next entry and nothing else of the table changes. |
| PageAllocator.PageHolder.ShareLeading | src/kv_pages.cpp:202-229 | On success entry i is the source's entry i for every i below `pages`, later entries and the reserve are kept, and `mapped` and `shared` are `pages`; a refusal changes neither holder nor pool. |
| PageAllocator.PageHolder.AdoptShare | src/kv_pages.cpp:230-276 | An accepted adopt ends with the source's leading entries in their order and the formerly private entries pushed on the reserve, last mapped first. |
| PageAllocator.PageHolder.MapMaterialized | src/kv_pages.cpp:277-295 | On success entry i is the reserve's i-th page from its end, the reserve loses exactly those, and later entries are kept; a refusal changes nothing. |
| PageAllocator.PageHolder.UnmapAll | src/kv_pages.cpp:296-336 | Nothing stays mapped, the private entries are pushed on the reserve last mapped first, and pool and status are those of the counting, filling and pushing sections. |
| PageAllocator.PageHolder.UnmapTail | src/kv_pages.cpp:337-353 | Keeps the larger of `keep` and the leading pages; the dropped entries are pushed on the reserve, last mapped first. |
| PageAllocator.PageHolder.Release | src/kv_pages.cpp:354-397 | Ends the holder: mapped and reserve pages go back by the section functions, whatever the statuses on the way. |
| PageAllocator.PageHolder.ReturnReserve | src/kv_pages.cpp:398-430 | Returns the reserve alone and reports how many pages went back. |
| PageLaws.CountDownCounts | src/kv_pages.cpp:27-41 | With enough references, counting down takes exactly one per entry, never underflows, and collects exactly the pages that reach zero, once each. |
| PageLaws.CountUpCounts | src/kv_pages.cpp:202-229 | Counting up gives each entry's page one reference and one shared entry, and keeps the distinct-share count right. |
| PageLaws.ZeroReserveZeroes | src/kv_pages.cpp:371-383 | A reserve of distinct counted pages is zeroed whole, in place, and no other count changes. |
| PageTables.PassesExactly | src/kv_pages.cpp:93-103 | A share passes its check if and only if every page's 32-bit count lies in [1, 2^32 - 2]. |
| PageTables.ShareCopies | src/kv_pages.cpp:202-229 | The section succeeds exactly under its argument checks and those counts, and then copies the source's leading entries in order. |
| PageTables.AdoptStarts | src/kv_pages.cpp:230-250 | An adopt starts exactly under its argument checks and those counts, and otherwise changes nothing. |
| PageTables.AdoptCopies | src/kv_pages.cpp:262-275 | An adopt's end writes the source's leading entries in order, keeps later ones, and pushes the private ones back. |
| PageTables.DrawTakes | src/kv_pages.cpp:176-183 | Drawing takes the free stack's top pages in order and sets exactly their counts to 1. |
| PageSafety.StepKeeps | src/kv_pages.cpp:148-430 | Every allowed section, fill, push and clean-up keeps every law of the allocator (references equal counts, each page in one place, shared counts, capacities); a refusal changes nothing. |
| PageSafety.RunKeeps | src/kv_pages.h:8-20 | The invariant holds in every state of every interleaved run from a new pool. |
| PageSafety.CountsMatchTables | src/kv_pages.h:75-103 | In every run, when no verb is between sections, a page's count is the number of times tables and reserves name it, and the free list holds exactly the pages of count zero, once each. |
| PageSafety.NeverUnderflows | src/kv_pages.cpp:27-41 | In every run no step reports an underflow, and a step that reports anything but success leaves the state as it was. |
| PageSafety.PushesFit | src/kv_pages.cpp:74-77 | In every run the free list never exceeds the page count and no reserve exceeds what its holder drew, so no push can allocate. |
| PageSafety.FillTouchesOnlyItsOwn | src/kv_pages.cpp:42-73 | A page whose dirty flag the out-of-lock fill changes is in that verb's limbo set and in no table, reserve, free list or other verb's limbo set. |
| PageSafety.SharesInOrder | src/kv_pages.cpp:202-229 | In every run a share succeeds exactly when its arguments and the counts in [1, 2^32 - 2] allow it; the receiver then has the source's leading entries in their order and no other holder changes. |
| PageSafety.AdoptsInOrder | src/kv_pages.cpp:262-275 | In every run an adopt ends with the entries it counted at its start, which its source still maps, in their order. |
| PageSafety.UnmapNeedsUnshared | src/kv_pages.cpp:322-324 | Starting an unmap keeps the invariant if and only if nobody else references one of the holder's private pages. |
| PageSafety.DroppedThenMapped | src/kv_pages.cpp:337-353 | Dropping a tail and mapping as many pages again restores the holder completely. |
| PageSafety.MappedThenDropped | src/kv_pages.cpp:277-295 | Mapping pages and dropping them restores the reserve, every count and every mapped entry. |
| ParallelFor.StepKeeps | docs/parallel_for_reference.hpp:77-118 | No enabled step reads a record that is not the live one, and every step keeps the protocol invariant. |
| ParallelFor.EveryRunIsSafe | docs/parallel_for_reference.hpp:64-118 | In every run, each returned dispatch started and finished every index of its range exactly once and nothing else, and whatever is enabled next touches only the live record. |
| ParallelFor.CompleteAtReturn | docs/parallel_for_reference.hpp:83-98 | Once the caller has withdrawn and the participant count is zero, every index is finished and no worker is inside. |
| ParallelFor.JoinsAtMostOnce | docs/parallel_for_reference.hpp:100-112 | A join that changes the state is by a worker that had not joined this dispatch. |
| ParallelFor.NoJoinAfterWithdrawal | docs/parallel_for_reference.hpp:93-97 | After withdrawal no step raises the participant count, and the record disappears only when it is zero. |
| ParallelFor.SleepingCallerIsAwaited | docs/parallel_for_reference.hpp:112-116 | While the caller sleeps some worker holds the record and has a step to take, so no wake-up is lost. |
| ParallelFor.PointersAreCurrent | docs/parallel_for_reference.hpp:64-118 | In every run a participant's pointer names the dispatch it joined, even when a later dispatch reuses the stack address, and after return no worker holds a pointer. |
| ParallelFor.FetchIsExact | docs/parallel_for_reference.hpp:77-81 | When the counter is fetched it equals claims plus finished drains, unwrapped, so the comparison with the task count is the exact one. |
| ParallelFor.CounterWrapRunsBadIndex | docs/parallel_for_reference.hpp:70-76 | Whenever task count plus workers exceeds the int32 range, some run executes the index -2^31. |
| DotRow.DotRowScalar | src/matmul.cpp:117-124 | The scalar reference computes the exact integer dot product. |
| DotRow.TierProductsAreExact | src/matmul.cpp:173-176 | Neither SSE2's unpack-and-shift nor the wider tiers' sign extension changes a block's products. |
| DotRow.LanesAddExact | src/matmul.cpp:144-149 | Inside a flush window no int32 lane wraps: after b blocks every lane is within b 2^15, at most 2^29. |
| DotRow.DotRowSimd | src/matmul.cpp:157-298 | On every SIMD tier widened blocks, the flush every 16384 blocks and the scalar tail give the exact dot product, for every length. |
| DotRow.DotAdds | src/matmul.cpp:117-124 | The reference product adds in its first operand. |
| DotRow.DotOfOne | src/matmul.cpp:117-124 | A row with one nonzero channel gives that channel's product, so with additivity the reference is the dot product. |
| TiledPack.Transpose8x8 | src/matmul.cpp:521-540 | The unpack network puts pair q of the eight rows in register q, for all eight. |
| TiledPack.PackPanel16 | src/matmul.cpp:542-568 | Each byte of the panel is its own row and channel's weight, or zero beyond either end, and nothing outside the panel is written. |
| TiledGemm.StepHolds | src/matmul.cpp:572-633 | One multiply-add step extends every lane's exact partial sum by one pair, without wrap-around inside a flush window. |
| TiledGemm.TiledMicro | src/matmul.cpp:572-633 | Every accumulator cell of the tile becomes the exact sum over all pairs and no other row changes. |
| TiledGemm.ColumnSum | src/matmul.cpp:510-568 | A packed column against a zero-padded activation row sums to the dot product of the unpadded rows. |
| TiledGemm.TiledGemm | src/matmul.cpp:635-693 | Both drivers, over all panels and token blocks, leave the exact dot product in every cell of the column range and change no other cell. |
| TiledGemm.GemmInt8AccumulateCols | src/matmul.cpp:1116-1144 | On every tier, path and build switch, exactly the cells of the column range become their dot products, for every shape. |
| ProbV.Int16Condition | src/matmul.cpp:752-763 | The early-return pass admits exactly the rows with entries in [0, 2^15) and sum at most 2^15, without overflow. |
| ProbV.SoftmaxRowsFailOnlyAtOne | src/matmul.cpp:742-763 | On a softmax row the condition holds if and only if no entry equals 2^15. |
| ProbV.AdmittedBound | src/matmul.cpp:742-763 | Every partial sum of an admitted row is within 2^22, whatever its width. |
| ProbV.LaneReads | src/matmul.cpp:779-800 | Lane i of the interleaved bytes holds the two keys' bytes of the dimension the lane is stored to, so no permute is needed. |
| ProbV.PairHolds | src/matmul.cpp:779-818 | A two-key step keeps every lane equal to its own dimension's exact partial sum. |
| ProbV.AccumulateSimd | src/matmul.cpp:779-927 | The AVX2 and AVX-512 bodies, their short passes and tail unit, add to each dimension its exact sum. |
| ProbV.AccumulateInto | src/matmul.cpp:929-954 | Whichever body runs, every dimension gains exactly its sum over all keys, under the call's int64 contract. |
| ProbV.GemmProbQ15Accumulate | src/matmul.cpp:1257-1270 | The one-call form leaves exactly the sums, whatever the array held. |
| ProbV.CtxAppend | src/matmul.cpp:1272-1275 | Splitting the keys into page runs leaves every dimension's sum unchanged. |
| ProbV.CtxIsDot | src/matmul.cpp:732-740 | A context dimension is the dot product of the probabilities with that dimension of the value rows. |
| ProbV.SoftmaxRowsFit | src/matmul.cpp:729-750 | Softmax rows meet the int64 contract from every context at least 2^22 inside the range. |
| Utf8.Utf8Decode | src/tokenizer.cpp:48-117 | The byte-table decoder equals the step function whose steps are characterised below, on every byte string. |
| Utf8.SubstitutesMaximalSubpart | src/tokenizer.cpp:36-117 | At an ill-formed front one U+FFFD is emitted and it uses exactly the maximal subpart: the longest prefix of a well-formed sequence, or one byte. |
| Utf8.DecodeEncode | src/tokenizer.cpp:119-135 | Decoding undoes encoding on every string of scalar values. |
| Utf8.DecodesToScalars | src/tokenizer.cpp:48-117 | Whatever the bytes, only scalar values come out. |
| Utf8.ReencodesIffWellFormed | src/tokenizer.cpp:48-135 | Decoding and re-encoding gives the bytes back if and only if they are well formed. |
| Utf8.TwoByteForm | src/tokenizer.cpp:48-117 | A two-byte form carries 5 and then 6 bits. |
| Utf8.ThreeByteForm | src/tokenizer.cpp:48-117 | A three-byte form carries 4, 6 and 6 bits, for every scalar value of that length. |
| Utf8.FourByteForm | src/tokenizer.cpp:48-117 | A four-byte form carries 3, 6, 6 and 6 bits, up to U+10FFFF. |
| Nfc.CanonicalOrderInPlace | src/tokenizer.cpp:200-215 | The in-place swaps compute the canonical ordering. |
| Nfc.CanonicalOrderSorts | src/tokenizer.cpp:200-215 | No mark is left after one of a higher class, no starter moves, and marks of one class keep their order between starters. |
| Nfc.CanonicalOrderPermutes | src/tokenizer.cpp:200-215 | The ordering is a permutation of its input. |
| Nfc.OrderIsUnique | src/tokenizer.cpp:200-215 | Those properties determine the result: any two orderings with them are equal. |
| Nfc.SyllableRoundTrip | src/tokenizer.cpp:184-258 | Every precomposed Hangul syllable is its own normal form. |
| Nfc.Normalize | src/tokenizer.cpp:184-258 | Decomposition, ordering and composition by loops equal their functions composed. |
| Nfc.NormalScalar | src/tokenizer.cpp:184-258 | Scalar values normalise to scalar values, never more of them than their decomposition has. |
| NfcLaws.DecomposeMore | src/tokenizer.cpp:184-198 | A character outside the Hangul block is replaced by its table entry, or stays without one. |
| NfcLaws.DecomposeSyllable | src/tokenizer.cpp:184-198 | Every Hangul syllable is replaced by its two or three jamo, by their numbers. |
| NfcLaws.MarksSwap | src/tokenizer.cpp:200-215 | Two marks after a starter change places if and only if the first has the higher class. |
| NfcLaws.ComposeMore | src/tokenizer.cpp:217-251 | Whatever the tables: an open starter takes what the Hangul numbers or the composition table give, and every other character is appended. |
| NfcLaws.ScanTracks | src/tokenizer.cpp:217-251 | The scan's two variables are the kept text's last starter and its last character's class, when starters compose to starters. |
| NfcLaws.ComposeRule | src/tokenizer.cpp:217-251 | In terms of the kept text alone: a character composes with the last starter exactly when nothing between blocks it and they have a composite; otherwise it is appended. |
| NfcLaws.PairRoundTrip | src/tokenizer.cpp:184-258 | Every character whose decomposition is a starter and one more, with that pair as its table entry, is its own normal form. |
| Pretokenize.InRanges | src/tokenizer.cpp:144-156 | The binary search decides membership in a sorted range table, both ways. |
| Pretokenize.NextPiece | src/tokenizer.cpp:262-320 | Every turn emits a nonempty piece that is what the first matching of the seven alternatives takes, so the fallback branch is unreachable. |
| Pretokenize.Scan | src/tokenizer.cpp:262-320 | The pieces are nonempty, tile the text and are each what the pattern takes. |
| Pretokenize.PiecesAreUnique | src/tokenizer.cpp:262-320 | The pattern fixes the pieces: two such tilings of a text are equal. |
| Bpe.FindBest | src/tokenizer.cpp:327-338 | The scan finds the leftmost pair of lowest rank, or there is no mergeable pair. |
| Bpe.Encode | src/tokenizer.cpp:322-345 | The loop ends and its result comes from the byte ids by merging the best pair until none is left. |
| Bpe.MergesOnce | src/tokenizer.cpp:322-345 | That greedy process has exactly one result. |
| Bpe.PieceKeepsBytes | src/tokenizer.cpp:322-345 | The tokens of a piece index the vocabulary and spell its bytes exactly, whatever the ranks. |
| Tokenizer.FirstIsLongest | src/tokenizer.cpp:350-360 | With specials stored longest first, the first match at a position is a longest one. |
| Tokenizer.EncodeText | src/tokenizer.cpp:347-383 | The encoder's output is a tokenisation: specials by id, every span between them normalised, cut and merged. |
| Tokenizer.TokensSpellText | src/tokenizer.cpp:347-383 | A text's tokens index the vocabulary and spell the specials verbatim and the spans normalised. |
| Tokenizer.DecodeIds | src/tokenizer.cpp:388-399 | Decoding skips ids outside the vocabulary and passes the joined bytes through the one UTF-8 decoder. |
| Tokenizer.DecodeUndoesEncode | src/tokenizer.cpp:347-400 | Decoding an encoded text gives the text with specials verbatim and spans normalised, if and only if those bytes are well formed; they are whenever every special is. |
| Tokenizer.NormalTextRoundTrips | src/tokenizer.cpp:347-400 | A well-formed, normal text without specials comes back byte for byte. |
| TokenizerLaws.SpecialThenRest | src/tokenizer.cpp:347-383 | A text beginning with a special keeps it verbatim before what the rest alone becomes. |
| TokenizerLaws.SpanThenRest | src/tokenizer.cpp:347-383 | A text beginning with a span up to a special has the UTF-8 of the span's normal form before what the rest alone becomes. |
| TokBuild.Build | tools/convert_tokenizer.py:305-340 | Building succeeds exactly when every lookup does, and gives as many ids as the largest demands, each with the bytes of its last entry. |
| TokBuild.DecoderInverts | tools/convert_tokenizer.py:44-57 | The byte-to-character dictionary and its inverse undo each other, both ways. |
| TokBuild.EncoderCounts | tools/convert_tokenizer.py:44-53 | Printable bytes stand for themselves and the others for 256 plus the number of unprintable bytes below them. |
| TokBuild.ConvertThenOpen | tools/convert_tokenizer.py:461-487 | From checkpoint to opened tokenizer: it opens exactly when every lookup succeeds, every number fits its field and the id count is within the reader's limit, and then holds what was built. |
| TokBuild.BuiltIsLoadable | tools/convert_tokenizer.py:330-340 | Every built table meets the reader's demands if and only if its id count is at most 2^31 - 1. |
| TokBuild.BuiltIsConsistent | tools/convert_tokenizer.py:313-340 | If no id is reused, every byte's token is that byte and every merge's result carries its operands' bytes. |
| TokBuild.BuiltSpecialsCarry | tools/convert_tokenizer.py:330-340 | Every special's id decodes to its content if and only if no id is added with two contents. |
| TokBuild.MergeMapsAgree | tools/convert_tokenizer.py:319-321 | The runtime's first-wins merge map equals the converter's last-wins one if and only if no pair is listed twice. |
| TokBuild.AcceptedInRange | src/tokenizer.cpp:450-488 | With the tables of any accepted blob, every id the encoder can emit indexes the vocabulary. |
| TokBuild.ConvertedRoundTrips | src/tokenizer.cpp:347-400 | The decode-of-encode theorem holds of every tokenizer converted from a checkpoint that reuses no id. |
| Tok1.ParsesIffLoadable | src/tokenizer.cpp:408-522 | Reading what the writer wrote gives the table back exactly when it meets the reader's demands, and a rejection otherwise. |
| Tok1.AcceptedIsLoadable | src/tokenizer.cpp:408-522 | Every accepted blob, written by anyone, has all byte, merge and special ids within the vocabulary, offsets within their blobs and specials longest first. |
| Tok1.RewriteReadsBack | src/tokenizer.cpp:408-522 | Rewriting an accepted blob's table gives a blob that reads back as the same table. |
| Tok1.PartsRoundTrip | tools/convert_tokenizer.py:469-486 | Joined byte strings cut at their running offsets are the original strings. |
| Tok1.FixedPart | tools/convert_tokenizer.py:461-467 | The written blob holds the marker, version 1, the three counts, a zero and the 256 byte ids at their fixed offsets. |
| Tok1Io.ParseTok | src/tokenizer.cpp:408-522 | The reader's loops accept exactly the blobs of the functional format, and return its table, on every byte string. |
| Tok1Io.SerializeTokenizer | tools/convert_tokenizer.py:461-487 | The writer's loops produce the format's bytes, or fail exactly when some number does not fit its 32-bit field. |
| ForcedGraph.ClearCycles | src/forced_table.h:137-156 | The colouring pass clears exactly the states on a forced cycle and leaves the rest a ranked, cycle-free graph. |
| ForcedGraph.ExactlyTheCycles | src/forced_table.h:137-156 | Any clearing that only touches cycles and leaves a rank cleared exactly the states on cycles. |
| ForcedGraph.TextIsTheChain | src/forced_table.h:94-102 | The forced text is the steps of the successive states, and ends at a state without one. |
| ForcedGraph.TextIsShort | src/forced_table.h:157-172 | Every chain ends within the state count. |
| ForcedGraph.FillLengths | src/forced_table.h:157-172 | The memoized lengths are the lengths of the forced texts, for every state. |
| ForcedTable.Transition | include/superslm/schema_masks.h:202-221 | The binary search finds the row's transition on an id if and only if there is one. |
| ForcedTable.ForcedTest | src/forced_table.h:114-136 | A step is found exactly when one byte is forced: every token of the row starts with it and its byte token leads on. |
| ForcedTable.DocumentsStartWithText | src/forced_table.h:94-136 | For a byte-consistent automaton every document completed from a state begins with that state's forced text. |
| ForcedTable.ChooseNext | src/forced_table.h:173-202 | The chosen token is legal and a nonempty prefix of the text: the encoder's first token when it qualifies, otherwise the first longest one. |
| ForcedTable.BuildForcedTable | src/forced_table.h:94-202 | The forced states are those the test accepts and no forced cycle contains, and every entry's length and token are right. |
| ForcedTable.ForcedChain | src/forced_table.h:229-244 | Following the table spells exactly the forced text; the count is all its tokens, what is written is the first `cap` of them and spells a prefix of the text, or all of it when none is cut off. |
| ForcedTable.IsAccepting | src/forced_table.h:50-62 | The binary search decides whether a state is accepting. |
| ExactScale.CanonicalScale | tools/convert_model.py:73-91 | From any starting exponent the converter's search ends at the one normal exponent, with the mantissa rounded half to even. |
| ExactScale.CanonicalIsClose | tools/convert_model.py:73-91 | The canonical scale is within half a unit in the last place of its value. |
| ExactScale.DecodeExactPositiveBinary64 | src/model.cpp:1200-1226 | The loader's decoder gives the exact value of every positive finite binary64, subnormals included, normalised. |
| ExactScale.LoaderAgrees | src/model.cpp:1230-1245 | The loader's shifted half-even rounding equals the converter's Fraction rounding on every source value. |
| QkDivide.DivideU128 | src/model.cpp:1270-1283 | The bitwise long division returns the low word of the quotient and the exact 128-bit remainder. |
| QkScale.DeriveQ31Ratio | src/model.cpp:1285-1302 | The loader's shifts and divisions give the half-up rounded Q31 ratio of the two real values. |
| QkScale.RoundNearestAwayIsHalfUp | tools/convert_model.py:69-70 | The converter's rounding of a nonnegative or negative quotient by a positive divisor is the same half-up rounding. |
| QkScale.SqrtIsNearest | src/model.cpp:1304-1307 | The carried constant is the multiple of 2^-49 closest to the square root of 128. |
| QkScale.DeriveHeadCarried | src/model.cpp:1304-1321 | The loader's carried scale is the converter's canonical scale of the head maximum over that constant. |
| QkTable.ValidateRelations | src/model.cpp:1514-1573 | The loader accepts exactly the tables whose every field is the one derived from its source bits. |
| QkTable.BuildHead | tools/convert_model.py:101-169 | A head is built exactly when its sources are admitted, keeps their bits, and has every field derived from them. |
| QkTable.ConvertThenLoad | tools/convert_model.py:343-355 | The converted table is complete exactly when every head is admitted; it then carries its source bits and the loader accepts it. |
| QkTable.OneHeadPerSources | src/model.cpp:1514-1573 | The source bits determine the accepted head: two accepted heads with the same bits are equal. |
| QkTable.RatioIsNearest | src/model.cpp:1285-1302 | An accepted ratio is the nearest integer to 2^31 times source over maximum, and 2^31 for the maximum itself. |
| QkTable.ReciprocalIsNearest | tools/convert_model.py:94-98 | An accepted reciprocal is the rounded 2^62 over a mantissa that is the source's canonical one. |
| Sha256Compress.CompressPortable | src/sha256.cpp:71-99 | The in-place schedule and 64-round loop compute the compression of section 6.2.2 of FIPS 180-4. |
| Sha256Compress.TwoRounds | src/sha256.cpp:123-167 | One two-round instruction is two standard rounds on the permuted state, and the old halves become the new ones. |
| Sha256Compress.ScheduleGroup | src/sha256.cpp:123-167 | The two schedule instructions and the aligned add make the next four schedule words. |
| Sha256Compress.CompressShaNi | src/sha256.cpp:123-167 | The SHA-extension compression equals the same standard compression on every state and block. |
| Sha256Stream.Hasher.Update | src/sha256.cpp:241-258 | Feeding bytes appends them to the message the stream denotes, whatever is buffered. |
| Sha256Stream.Hasher.Final | src/sha256.cpp:260-280 | The digest is that of the whole message with the padding of section 5.1.1 of FIPS 180-4. |
| Sha256Stream.SealThenRead | src/artifact.cpp:332-337 | Reading accepts a stored digest if and only if it is the hash of the blob with its field zeroed, on any pair of implementations. |
| Sha256.HashOneShot | src/sha256.cpp:281-288 | The one-shot hash is SHA-256 of the data, on either implementation. |
| Sha256.HashPieces | src/sha256.cpp:292-329 | Every way of cutting a message into Update calls gives the digest of the whole message. |
| Sha256.IntegrityHolds | src/spx1_format.cpp:85-100 | The three-part hash of a file with a zeroed field accepts exactly the files whose field is the hash of the zeroed file. |
| Sha256.CubeRoots1 | src/sha256.cpp:47-60 | The first eight round constants are the cube roots of the first eight primes to 32 bits; `CubeRoots2` to `CubeRoots8` say the same of the others. |
| Sha256.InitialStateIsSquareRoots | src/sha256.cpp:42-45 | The initial state is the square roots of the first eight primes to 32 bits. |
| AntiLm.AntiLmState.Reserve | src/damped_greedy_antilm.cpp:130-166 | Reserving publishes nothing; any allocation may fail, and enough allocations always succeed. |
| AntiLm.AntiLmState.Apply | src/damped_greedy_antilm.cpp:168-197 | Applying a matching reservation extends the history by its token and keeps every order's table equal to the occurrence counts. |
| AntiLm.AntiLmState.Update | src/damped_greedy_antilm.cpp:199-203 | An update appends the token, or fails and leaves history and tables as they were. |
| AntiLm.PublishKeeps | src/damped_greedy_antilm.cpp:168-197 | Publishing one token keeps an order's table equal to the counts of (context, token) occurrences in the longer history. |
| AntiLm.SharedOccurrences | src/damped_greedy_antilm.cpp:221-281 | The counts of distinct tokens after a context sum to at most the context's total, and to exactly it when they cover the history. |
| AntiLm.AntiLmState.Penalize | src/damped_greedy_antilm.cpp:221-281 | Every candidate gets the mixed penalty over all active orders, and the final clamp changes none. |
| AntiLm.PenaltyRange | src/damped_greedy_antilm.cpp:221-281 | Every penalty lies in [0, 2^15] before the clamp. |
| AntiLm.PenaltiesWithinOne | src/damped_greedy_antilm.cpp:221-281 | The penalties of distinct candidates sum to at most 2^15. |
| AntiLm.WeightsAddToOne | src/damped_greedy_antilm.cpp:221-281 | The floored weights, with the last active order taking the rest, add up to exactly 2^15. |
| AntiLm.DividesExactly | src/damped_greedy_phaseD.cpp:151-161 | The normalising division is defined on every history if and only if there are at most 83 orders. |
| AntiLm.SumVanishes | src/damped_greedy_antilm.cpp:221-281 | For a given history the divisor is zero if and only if every active order is at least 82 below the highest. |
| AntiLm.WeightPositive | src/damped_greedy_antilm.cpp:211-217 | The truncating power of 29491/32768 is positive if and only if the exponent is at most 81. |
| AntiLmLaws.PowersFall | src/damped_greedy_antilm.cpp:211-217 | The powers start at 2^15 and each is the floor of 29491/32768 of the one before. |
| AntiLmLaws.WeightIsFloor | src/damped_greedy_antilm.cpp:263-272 | With an active order above it, an order's weight W satisfies W S <= 2^15 P < (W + 1) S, with P its power and S the sum of the active orders' powers. |
| AntiLmLaws.LastWeightIsRest | src/damped_greedy_antilm.cpp:263-272 | The last active order's weight and those before it add up to exactly 2^15. |
| AntiLmLaws.ShareIsFloor | src/damped_greedy_antilm.cpp:272-281 | A share is the floor of the token's part of its context's occurrences in Q15. |
| AntiLmLaws.PenaltyIs | src/damped_greedy_antilm.cpp:272-281 | A penalty is the sum over all active orders of the floors of share times weight. |
| AntiLmLaws.PenaltiesNearOne | src/damped_greedy_antilm.cpp:221-281 | Distinct candidates that cover the history have penalties summing to at most 2^15 and at least 2^15 less one unit per candidate for each active order and one more. |
| TopK.FsdTopK | src/damped_greedy_topk.cpp:65-89 | The bounded-heap scan writes the first min(k, V) indices of the full sort and -1 after them. |
| TopK.BestIsPrefix | src/damped_greedy_topk.cpp:65-89 | Any ordered selection that no unselected index beats is that prefix. |
| TopK.PrefixIsBest | src/damped_greedy_topk.cpp:65-89 | The first k of the full sort are ordered and beaten by no other index. |
| TopK.SelectedBeatRest | src/damped_greedy_topk.cpp:65-89 | No index left out has a higher value than a selected one, or the same value and better legality, or both equal and a lower index. |
| TopK.SelectedInOrder | src/damped_greedy_topk.cpp:65-89 | The selected indices come in that order: value, legality, index. |
| DampedGreedy.TopKRenormalizeQ15 | src/damped_greedy_topk.cpp:92-136 | Refuses exactly the rows the gate or the row softmax refuses; otherwise writes the softmax shares of the picks. |
| DampedGreedy.ScoreAndSelect | src/damped_greedy_topk.cpp:280-325 | Refuses exactly when renormalisation does, and otherwise returns a pick no pick beats in score and order. |
| DampedGreedy.BodiesAgree | src/damped_greedy_topk.cpp:280-354 | The allocating and the scratch body return the same outcome. |
| DampedGreedy.SelectedOnce | src/damped_greedy_topk.cpp:280-325 | At most one token can be selected. |
| DampedGreedy.SelectedIsLegal | src/damped_greedy_topk.cpp:280-325 | The selected token is legal whenever any pick is. |
| DampedGreedy.ScoreFalls | src/damped_greedy_topk.cpp:305-320 | A legal score is the share less the damped penalty rounded down: the share at none, alpha less at a full one, never higher under a greater one; a masked score is -2^63. |
| DampedGreedy.SelectedIsBest | src/damped_greedy_topk.cpp:280-325 | The selected token's score is at least every pick's, and its index the lowest with that score. |
| DampedGreedy.DampedGreedyScoreAndArgmax | src/damped_greedy_topk.cpp:366-384 | Rejects exactly what is out of domain, refuses exactly what renormalisation refuses, and otherwise returns the selected token, legal whenever a pick is. |
| ExactRatio.DivU128ByU64 | src/damped_greedy_topk.cpp:222-236 | The bitwise division gives the low word of the quotient and the exact remainder, for every divisor up to 2^63. |
| ExactRatio.ExactRatioQ15 | src/damped_greedy_topk.cpp:238-251 | The ratio is the half-up rounded Q15 quotient clamped to [0, 2^15], with the code's zero and whole cases. |
| ExactRatio.RatioIsNearest | src/damped_greedy_topk.cpp:238-251 | A proper part's ratio is the nearest Q15 number, ties up; a whole gives 2^15 and nothing gives 0. |

## Findings

Properties that the code or its comments suggest and that do not hold as stated, each with an input and the exact
condition:

- The wide requant element is not total over int64 (include/superslm/intmath.h:248-253 says it is). The narrowing
  shift keeps the low 64 bits, so a rounded magnitude of 2^64 + 125 gives 125 instead of 127:
  x = 145249953336295683 with reciprocal 2^(62 - s) (`Requant.ElementCodeWitness`). The code is right exactly when the
  magnitude is below 2^64 or its low 64 bits are at least 127 (`Requant.ElementCodeExactly`). The chain's own gate,
  magnitudes at most 2^31, excludes every such input (`Requant.ElementCode`).
- The anti-LM divides by zero from 84 orders on (src/damped_greedy_antilm.cpp:221-281): the history 7, 7 leaves
  only active orders whose weight has truncated to zero. The division is defined on every history exactly up to 83
  orders (`AntiLm.DividesExactly`) and for one history exactly as `AntiLm.SumVanishes` says; the public gate of 82
  (src/damped_greedy_phaseD.cpp:161) excludes it. The comment there calls 82 the last exponent of nonzero weight; 81
  is (`AntiLm.WeightPositive`).
- The parallel-for's claim counter is an int32 that every participant increments past the end
  (docs/parallel_for_reference.hpp:70-81). With task count + workers >= 2^31 some run reads the index -2^31 and runs it
  (`ParallelFor.CounterWrapRunsBadIndex`); below that no run faults (`ParallelFor.EveryRunIsSafe`).
- Unmapping a holder whose private pages others share breaks the reference counts
  (src/kv_pages.cpp:322-324: private pages return to the reserve without a count). The invariant survives an unmap
  exactly when no other holder references one of those pages (`PageSafety.UnmapNeedsUnshared`).
- A merge pair listed twice gets its first rank in the runtime (src/tokenizer.cpp:463-473 over
  src/detail/int_hash.h) and its last rank in the converter's reference encoder
  (tools/convert_tokenizer.py:319-321). The two maps agree exactly when no pair is repeated
  (`TokBuild.MergeMapsAgree`).
- Decoding is not the inverse of encoding on every text: ill-formed spans are replaced before they are encoded, and a
  special with ill-formed content is replaced on the way back. `Tokenizer.DecodeUndoesEncode` gives the exact condition.
- An added token that reuses another's id overwrites its bytes in the table (tools/convert_tokenizer.py:335-340), so
  the overwritten special no longer decodes to itself; `TokBuild.BuiltSpecialsCarry` gives the exact condition.

## Left out

- GPU kernels, shader checkers, benchmarks, generators and reference dumps: I/O and third-party code.
- The field-by-field acceptance checks of the artifact, model and proof-manifest readers, and the Unicode-table blob:
  each is settled by reading one branch.
- CPUID probes and tier selection: the selected implementation is a parameter of each kernel.
- Weak memory: a mutex section, a counter fetch and the return of a task are single atomic steps.
- Liveness: runs are finite and fair scheduling is not modelled, except that a sleeping caller is never forgotten.
- Memory allocation failure, except where the code promises to survive it (the anti-LM's reserve).
- Row-major address arithmetic: matrices are sequences of rows, and the packed panel and outputs are arrays.
- Hash tables: maps with the insertion rule of the code; probing and the anti-LM's retained-bytes metric are left out.
- The heap and sort of the C++ standard library, and Python's sort: replaced by their contracts.
- Real Unicode data, sigmoid nodes and vocabularies: parameters with stated well-formedness; idempotence of
  normalisation depends on the data and is not claimed.
- SHA-256's collision resistance; its rotations and word functions are written down as FIPS 180-4 prints them.
- Tok1.Parsed: does not tell the reader's diagnostics apart, nor model its 32-bit `special + 1` at a count of 2^32 - 1,
  which needs a section of more than 2^34 bytes.
- TokBuild.Build: takes ids as nonnegative integers and added contents as bytes; JSON parsing, the post-processor's
  classification and the command line are left out.
- QkDivide.DivideU128: requires a divisor of at most 2^127, which its callers keep, because the shifted remainder needs
  the spare bit.
- ExactRatio.DivU128ByU64: requires a divisor of at most 2^63, which its int64 callers keep, for the same reason.
- The bias reconciliation, rotary embedding and exponent-scale constants of src/intmath.cpp: not part of this model.
- The damped-greedy phase-D loop and its trace hooks: plumbing around the modelled functions.
