# AFL++ core algorithms in Dafny

A Dafny model of five parts of AFL++, with proofs of what each promises over all inputs and all runs.

* **Streaming hashes.** XXH32, XXH64 and XXH3 (64-bit) exist as a one-shot function and as a
  reset/update/digest state machine. Both forms are modelled with their own loops, buffers and
  counters (`StripeHash`, `Xxh32And64` with values in `XxhValues`, `Xxh3`, `Xxh3Loops`, `Xxh3Stream`), and every way to cut an
  input into update calls gives the one-shot hash (`Xxh3Theorems`). The arithmetic below is treated
  apart: the two portable 64x64 multiplications are exact (`WideMultiply`), and the lane-sequential
  scalar code and the swapped-lane vector code of XXH3 compute the same hash (`Xxh3Lanes`).
* **Parallel corpus minimiser.** afl-cmin as a state machine of a dispatcher, N workers, a job queue
  with sentinels, a progress queue and a result queue (`CminProtocol`), its invariant and its runs
  (`CminProof`), the worker's loops over its table and pack (`CminWorker`), and the merge and the two
  selection loops (`CminSelect`), from the sorted input (`CminInput`) and the packs as bytes on disk
  (`CminPack`) to the covering set of files that is saved (`CminMain`).
* **Havoc mutation engine.** All 37 kinds of `afl_mutate` edit a real buffer in place
  (`HavocEngine`); each refines a small sequence edit (`HavocSpec`). The word arithmetic
  (`HavocWords`, `HavocArith`), the shuffle (`HavocShuffle`) and the decimal numbers (`HavocNumber`) have their own
  theory. Random draws are residues of arbitrary accepted values of the generator (`HavocRandom`).
* **Coverage novelty and edge IDs.** The word-at-a-time novelty scan, classification and the three
  skims against a bytewise definition (`CoverageBytes`, `CoverageMap`), in 64-bit and 32-bit form
  (`CoverageWords`); and the LTO pass that counts edge IDs in a dry run before it allocates them
  while inserting into the block it walks (`LtoContext`), what gets an ID (`LtoIndices`) and when two
  map indices of a module coincide (`LtoModule`).
* **Pool-backed list and growing buffer.** The circular list over a pool of 64 slots (`PoolList`),
  `next_pow2` against the loop `next_p2` (`PowerOfTwo`) and `afl_realloc` (`GrowBuffer`).

## Where code and documentation disagree

The model follows the code.

* MUT_ARITH32BE swaps the word twice, so it adds in little-endian order. `HavocWords.Arith32BeRightIff`
  says exactly when that is still the big-endian addition.
* The comment on `next_pow2` promises the next power of two, or 0 on overflow. The shifts stop at 16,
  so above 2^32 this holds exactly when no 32 zero bits lie below a set bit of the argument less one
  (`PowerOfTwo.NextPow2Exact`); for the argument 0 it never holds.
* The comment on `afl_realloc` says that a request below 1 frees the buffer and returns NULL. The code
  does so exactly when there was no buffer and realloc refuses (`GrowBuffer.NullAsPromisedIff`,
  `GrowBuffer.RequestNothing`; `GrowBuffer.NothingFreed` is an input where it does not).
* docs/env_variables.md:259 calls the caller-context mode "collision free". The context is not added to
  the later lanes of vector selects, so that holds exactly without such selects in functions with
  several callers (`LtoModule.CollisionFreeIff`; `LtoModule.VectorCollision` is a failing input).
* instrumentation/README.lto.md:43-44 promises the edge coverage of LLVM's sanitizer mode. In
  caller-context mode the blocks of a function with at most one caller get no ID, so that holds exactly
  under the condition of `LtoIndices.BlocksCoveredIff` (`LtoIndices.LostBlock` is a failing input).
* MUT_ASCIINUM prints its number with the size of a pointer as the limit, so the stored number is the
  intended one exactly in seven characters (`HavocNumber.StoredNumber`).

## Model

| member | source | states |
|---|---|---|
| Xxh3.AbsorbConcat | AFLplusplus/include/xxhash.h:6533-6576 | for every secret and block position, absorbing `x` (whole stripes) and then `y` is absorbing `x + y`, scrambles included |
| Xxh3.RunInsideBlock | AFLplusplus/include/xxhash.h:6533-6576 | stripes that do not reach the end of a block are plain accumulation from the current secret offset, and move the position by their number |
| Xxh3.RunToBlockEnd | AFLplusplus/include/xxhash.h:6533-6576 | stripes that end exactly at a block end are accumulation followed by one scramble and a position of 0 |
| Xxh3Loops.Accumulate | AFLplusplus/include/xxhash.h:5346-5361 | the accumulate loop over n stripes computes the stripe-by-stripe run from the given position in the secret |
| Xxh3Loops.ConsumeStripes | AFLplusplus/include/xxhash.h:7029-7070 | whatever the open block and the number of stripes, the three phases equal absorbing one stripe at a time, and the input pointer moves 64 bytes per stripe |
| Xxh3Loops.HashBlocks | AFLplusplus/include/xxhash.h:6533-6556 | the block loop of the one-shot hash stops before the block that holds the last byte, with the accumulators of all stripes before it |
| Xxh3Loops.HashLong | AFLplusplus/include/xxhash.h:6533-6649 | the block loop, the partial block and the overlapping last stripe compute the declarative long hash, for every input over 240 bytes and secret of at least 136 |
| Xxh3Stream.InitCustomSecret | AFLplusplus/include/xxhash.h:6403-6470 | in every pair of 64-bit words of the result the first is the default one plus the seed and the second the default one minus the seed, modulo 2^64 |
| Xxh3.DerivedPair | AFLplusplus/include/xxhash.h:6461-6462 | the same of the derived secret, read back pair by pair |
| Xxh3.SeedsDiffer | AFLplusplus/include/xxhash.h:6403-6470 | different seeds derive different secrets |
| Xxh3.DeriveWithZero | AFLplusplus/include/xxhash.h:6403-6470 | the secret derived from seed 0 is the default secret |
| Xxh3Stream.State.Reset | AFLplusplus/include/xxhash.h:6960-6969 | from any valid state, whatever was cached, the state represents no input in default mode |
| Xxh3Stream.State.ResetWithSecret | AFLplusplus/include/xxhash.h:6971-6982 | accepted exactly for a non-NULL secret of at least 136 bytes; then the state represents no input under it; a rejected call still leaves a valid seed cache |
| Xxh3Stream.State.ResetWithSeed | AFLplusplus/include/xxhash.h:6984-6995 | the cached secret is reused only when it is the one of this seed, so the state always represents no input under the derived secret |
| Xxh3Stream.State.ResetWithSecretAndSeed | AFLplusplus/include/xxhash.h:6997-7008 | accepted under the same condition; a rejected call changes no field |
| Xxh3Stream.State.Update | AFLplusplus/include/xxhash.h:7084-7170 | a state that represents `data` represents `data + input` after the call: total length modulo 2^64, buffered end, kept last stripe, accumulators and block position |
| Xxh3Stream.State.CompleteBuffer | AFLplusplus/include/xxhash.h:7129-7143 | filling the buffer from the input and consuming its four stripes leaves exactly the bytes up to there consumed, and the last stripe in the buffer |
| Xxh3Stream.State.ConsumeRest | AFLplusplus/include/xxhash.h:7145-7155 | direct consumption leaves between 1 and 64 bytes and keeps the last consumed stripe at the end of the buffer |
| Xxh3Stream.State.DigestLong | AFLplusplus/include/xxhash.h:7184-7223 | the last stripe is the last 64 bytes of everything fed, also when it is completed from the kept stripe, and the accumulators are those of all stripes before the last byte |
| Xxh3Stream.State.Digest | AFLplusplus/include/xxhash.h:7225-7247 | the digest is the one-shot hash of everything fed since the reset, in each of the four modes and for every length below 2^64 |
| Xxh3Theorems.HashOneShot | AFLplusplus/include/xxhash.h:6735-6805 | the four public one-shot functions meet the one definition that the digest meets |
| Xxh3Theorems.HashChunks | AFLplusplus/include/xxhash.h:6933-7247 | on any reused state: reset, any sequence of updates with empty and NULL chunks, digest, gives the one-shot hash of the concatenation |
| Xxh3Theorems.StreamsAgree | AFLplusplus/include/xxhash.h:6533-7247 | two ways to cut the same input and the one-shot call give the same hash |
| Xxh3.GeneratedSecretIsSeed | AFLplusplus/include/xxhash.h:2082-2085 | withSecretandSeed under the secret generated from the seed equals withSeed, for every seed and length |
| StripeHash.Resume | AFLplusplus/include/xxhash.h:3407-3485 | hashing more bytes is hashing the waiting rest followed by them, for the lanes and for the new rest |
| StripeHash.Lanes.Update | AFLplusplus/include/xxhash.h:3407-3485 | after the call the lanes hold every whole stripe of the input so far and the memory holds the rest of it |
| StripeHash.MixAll | AFLplusplus/include/xxhash.h:3295-3325 | the do-while loop of the one-shot function mixes every whole stripe, and the input pointer stops `len` modulo the stripe bytes before the end |
| StripeHash.TailIsRest | AFLplusplus/include/xxhash.h:3332-3336 | the `len & 15` (or 31) bytes read at the moved pointer are exactly what no whole stripe holds |
| Xxh32And64.OneShot32 | AFLplusplus/include/xxhash.h:3295-3338 | the loop form of XXH32 computes the stripe-recursive definition for every input and seed |
| Xxh32And64.OneShot64 | AFLplusplus/include/xxhash.h:3818-3864 | the loop form of XXH64 computes the stripe-recursive definition for every input and seed |
| XxhValues.EmptyInput | AFLplusplus/include/xxhash.h:3295-3338 | XXH32 of nothing under seed 0 is 02cc5d05 |
| XxhValues.EmptyInput64 | AFLplusplus/include/xxhash.h:3818-3864 | XXH64 of nothing under seed 0 is ef46db3751d8e999 |
| XxhValues.ShortInput | AFLplusplus/include/xxhash.h:3170-3268 | XXH32 of "abc" is 32d153ff |
| XxhValues.LongInput | AFLplusplus/include/xxhash.h:3295-3338 | the value for 21 bytes, through one stripe, a word and a byte, which fixes constants, rounds and rotations |
| XxhValues.MixedLanes64 | AFLplusplus/include/xxhash.h:3834-3845 | the four XXH64 lanes after one stripe of 32 bytes, which fixes constants, rounds and rotations |
| XxhValues.Merged64 | AFLplusplus/include/xxhash.h:3847-3852 | the value that the four merge rounds make of them |
| XxhValues.TailOne | AFLplusplus/include/xxhash.h:3788-3798 | the last byte of a tail and the avalanche |
| Xxh32And64.SeedInLane2 | AFLplusplus/include/xxhash.h:3487-3507 | the digest of a short input may take the seed from the third lane |
| Xxh32And64.State32.Update | AFLplusplus/include/xxhash.h:3407-3485 | the state represents the longer input, with total_len_32 modulo 2^32 and large_len |
| Xxh32And64.State32.Digest | AFLplusplus/include/xxhash.h:3487-3507 | the digest is XXH32 of everything fed, for totals of any size, 2^32 and more included |
| Xxh32And64.State32.Reset | AFLplusplus/include/xxhash.h:3392-3404 | a state with any past represents no input under the new seed |
| Xxh32And64.FlagTracksTotal | AFLplusplus/include/xxhash.h:3422-3424 | large_len is set exactly when the true total is at least 16, although the counter wraps |
| Xxh32And64.WrappedLength32 | AFLplusplus/include/xxhash.h:3502-3502 | adding the wrapped length gives the same hash as adding the true length |
| Xxh32And64.FillLevel | AFLplusplus/include/xxhash.h:3407-3485 | memsize is the total modulo 16, and the counter and the flag are functions of the total |
| Xxh32And64.State64.Update | AFLplusplus/include/xxhash.h:3934-4000 | the state represents the longer input, with total_len modulo 2^64 |
| Xxh32And64.State64.Digest | AFLplusplus/include/xxhash.h:4005-4029 | the digest is XXH64 of everything fed, for totals below 2^64 |
| Xxh32And64.State64.Reset | AFLplusplus/include/xxhash.h:3919-3931 | a state with any past represents no input under the new seed |
| Xxh32And64.HashChunks32 | AFLplusplus/include/xxhash.h:3392-3507 | on any reused state: reset, any sequence of updates with empty and NULL chunks, digest, gives XXH32 of the concatenation |
| Xxh32And64.HashChunks64 | AFLplusplus/include/xxhash.h:3919-4029 | the same for XXH64 |
| Xxh32And64.Stream32 | AFLplusplus/include/xxhash.h:3392-3507 | every sequence of chunks gives XXH32 of the concatenation |
| Xxh32And64.Stream64 | AFLplusplus/include/xxhash.h:3919-4029 | every sequence of chunks gives XXH64 of the concatenation |
| WideMultiply.GradeSchoolExact | AFLplusplus/include/xxhash.h:4914-4927 | neither intermediate sum of the grade-school multiplication overflows 64 bits, and the halves make up the exact sum of the cross products |
| WideMultiply.DisjointOr | AFLplusplus/include/xxhash.h:4922-4922 | the two operands of the bitwise or have no bit in common, so it adds them |
| WideMultiply.CarryExact | AFLplusplus/include/t1ha_bits.h:1117-1130 | the carry test recovers exactly what the 64-bit addition lost |
| WideMultiply.CarryChainsExact | AFLplusplus/include/t1ha_bits.h:1188-1200 | the two carry chains make up the exact sum of the cross products |
| WideMultiply.BothExact | AFLplusplus/include/xxhash.h:4914-4927 | low + high * 2^64 is the product for all 64-bit operands, in xxHash and in t1ha, so both return the same halves |
| Xxh3Lanes.RoundsGivePartial | AFLplusplus/include/xxhash.h:6307-6353 | after n lane rounds each accumulator has its own product and its neighbour's input exactly if those rounds have run |
| Xxh3Lanes.AccumulateAgrees | AFLplusplus/include/xxhash.h:5540-5582 | the scalar rounds in sequence, each adding across lanes, equal the vector form that adds swapped lanes at once |
| Xxh3Lanes.HalvesMultiplied | AFLplusplus/include/xxhash.h:6307-6331 | the scalar product of the two halves of the key is the vector product of the low halves of the key and of the shifted key |
| Xxh3Lanes.Accumulate512 | AFLplusplus/include/xxhash.h:6333-6353 | the in-place loop over the accumulator array computes the vector form |
| Xxh3Lanes.ProductAgrees | AFLplusplus/include/xxhash.h:5608-5612 | the two 32-bit products recombined by a shift are the wrapped 64-bit product |
| Xxh3Lanes.ScrambleAgrees | AFLplusplus/include/xxhash.h:6359-6401 | the scalar scramble equals the vector scramble on all eight lanes |
| Xxh3Lanes.AbsorbAgrees | AFLplusplus/include/xxhash.h:6533-6576 | kernels that agree on accumulate and scramble agree on any number of stripes and blocks |
| Xxh3Lanes.VectorBuildAgrees | AFLplusplus/include/xxhash.h:6735-6805 | a scalar build and a vector build give the same hash in every mode for every input |
| CminCorpus.SentinelIsNoFile | AFLplusplus/afl-cmin.py:289-292 | the type code chosen for the number of files is the smallest that exceeds it, and its largest value is no file number |
| CminCorpus.RenumberInjective | AFLplusplus/afl-cmin.py:437-437 | renumbering tuples keeps them below nine times the map size and apart |
| CminCorpus.CountedOnce | AFLplusplus/afl-cmin.py:748-750 | a tuple shown by two files is counted at least twice |
| CminCorpus.CountedIffShown | AFLplusplus/afl-cmin.py:500-500 | a tuple is in the counter exactly when some handled file shows it |
| CminCorpus.CrashedCount | AFLplusplus/afl-cmin.py:504-505 | the crash list of a worker names a handled file with an empty trace as often as it was handled, and no other |
| CminCorpus.TallyOrder | AFLplusplus/afl-cmin.py:696-704 | the counts do not depend on the order in which files were handled |
| CminInput.OrderSorted | AFLplusplus/afl-cmin.py:633-637 | the order used has every file once, by size, and files of equal size as they came |
| CminInput.BestIsSmallest | AFLplusplus/afl-cmin.py:633-637 | in any such order the winner of a tuple is a smallest file that shows it, and the first of those in the input |
| CminInput.Settings | AFLplusplus/afl-cmin.py:629-657 | with nine table entries per edge and the detected item sizes, every renumbered tuple has an entry and fits an item, and the start value is no file |
| CminInput.ShowsRenumbered | AFLplusplus/afl-cmin.py:437-437 | two files show the same reported value exactly when they show the same tuple |
| CminPack.ReadBack | AFLplusplus/afl-cmin.py:528-546 | reading `count` items at byte offset `pos` times the item size gives back exactly the items written there |
| CminPack.TraceAppended | AFLplusplus/afl-cmin.py:517-521 | a trace written at the end of a pack of any content is found at the old byte length |
| CminPack.TraceStays | AFLplusplus/afl-cmin.py:517-521 | later writes leave every earlier trace where it was |
| CminProtocol.UpdateBestMeaning | AFLplusplus/afl-cmin.py:511-515 | the loop over a trace lowers exactly the entries of its tuples that were higher, and `used` says whether there was one |
| CminWorker.BatchesPartition | AFLplusplus/afl-cmin.py:37-54 | the batches have between 1 and n files and together hold every file once |
| CminWorker.Batched | AFLplusplus/afl-cmin.py:37-54 | the loop makes those batches, in order |
| CminWorker.ChunkFits | AFLplusplus/afl-cmin.py:677-677 | the batch size is the largest up to 128 that still gives every worker a batch, and at least 1 |
| CminWorker.Process.Handle | AFLplusplus/afl-cmin.py:497-523 | the in-place update of table, counter, crash list and pack file is the worker step of the machine, and the message has the byte offset of the trace |
| CminProof.InitHolds | AFLplusplus/afl-cmin.py:667-682 | the state after starting the workers meets the invariant |
| CminProof.ProcessKeeps | AFLplusplus/afl-cmin.py:497-523 | handling one file keeps the invariant: ledger of files, tables, counters, crash lists, packs, and a message that locates the trace of every winner |
| CminProof.TakeKeeps | AFLplusplus/afl-cmin.py:492-495 | taking a batch or a sentinel keeps the invariant |
| CminProof.SendKeeps | AFLplusplus/afl-cmin.py:465-468 | dispatching keeps the invariant |
| CminProof.RunKeeps | AFLplusplus/afl-cmin.py:465-525 | every interleaving of any length keeps the invariant |
| CminProof.NoDeadlock | AFLplusplus/afl-cmin.py:492-495 | a state in which some worker still runs always has an enabled step |
| CminProof.RunsEnd | AFLplusplus/afl-cmin.py:465-525 | the length of a run is bounded by a measure of its first state, so every schedule ends |
| CminProof.Completes | AFLplusplus/afl-cmin.py:465-525 | from every state that meets the invariant some schedule runs until all workers have stopped |
| CminProof.FinishedState | AFLplusplus/afl-cmin.py:684-704 | at the end every file was handled exactly once, there are as many progress messages as files, and each worker took one sentinel and sent one result |
| CminProof.MergedCounterIs | AFLplusplus/afl-cmin.py:696-704 | the merged counter is the tally of all handled files |
| CminProof.MergedBestIs | AFLplusplus/afl-cmin.py:705-705 | the minimum over the workers' tables is the winner over all handled files |
| CminProof.CrashesReported | AFLplusplus/afl-cmin.py:696-704 | after every complete schedule the merged crash list names each file with an empty trace once, and no other |
| CminProof.ScheduleIndependent | AFLplusplus/afl-cmin.py:667-705 | for every corpus, number of workers, batching and interleaving, counter and winners are those of the whole corpus |
| CminCorpus.BestUnique | AFLplusplus/afl-cmin.py:705-705 | there is only one winner of a tuple, so two schedules merge to the same table |
| CminWorker.Collect | AFLplusplus/afl-cmin.py:684-692 | trace_info holds an entry exactly for the reported files, each from a message |
| CminWorker.MergeTables | AFLplusplus/afl-cmin.py:705-705 | the zip/min loop computes the minimum of each column |
| CminWorker.MergeCrashes | AFLplusplus/afl-cmin.py:703-703 | the loop over the results concatenates the crash lists |
| CminSelect.WinnerFound | AFLplusplus/afl-cmin.py:748-765 | for every tuple that some file shows, best_idxes and trace_info are defined and the trace file of that worker holds exactly the winner's trace at the stored byte offset |
| CminSelect.CountedFound | AFLplusplus/afl-cmin.py:748-765 | after every complete run this holds for every tuple listed by most_common |
| CminSelect.SaveUnique | AFLplusplus/afl-cmin.py:746-763 | the first loop saves, without a repeat, the winner of every tuple that is counted once; each of those alone shows some tuple, and the jobs read exactly their tuples |
| CminSelect.AloneIsFirst | AFLplusplus/afl-cmin.py:746-756 | every file that alone shows a tuple is saved by the first loop |
| CminSelect.Combine | AFLplusplus/afl-cmin.py:528-546 | the combine workers together return the union of the traces of all jobs |
| CminSelect.SaveRest | AFLplusplus/afl-cmin.py:777-791 | the second loop extends the first selection without a repeat until every listed tuple is shown; each file it adds wins a tuple not shown before, when everything behind that tuple in the list was shown already |
| CminSelect.PickIsRarest | AFLplusplus/afl-cmin.py:777-791 | hence each added file is saved for a tuple that no earlier file shows, and every rarer tuple of the corpus is already shown: rarest first |
| CminSelect.EssentialInCover | AFLplusplus/afl-cmin.py:748-756 | a file that alone shows a tuple is in every covering sub-corpus |
| CminSelect.WinnersBound | AFLplusplus/afl-cmin.py:746-791 | distinct winners are at most as many as the tuples |
| CminSelect.Select | AFLplusplus/afl-cmin.py:746-791 | the saved files cover all tuples of the corpus, none twice, at most one per tuple; those of the first loop are exactly the files that alone show a tuple, and are in every cover; the others are picked in list order from the end |
| CminSelect.MinimiseRun | AFLplusplus/afl-cmin.py:667-791 | the same from the queues on, after every complete schedule and for every batching, with the merged crash list; each saved file is the winner of a tuple, rarest first after the first loop |
| CminMain.Minimise | AFLplusplus/afl-cmin.py:629-791 | the whole tool: with the sorted order, the detected start value and item size and the batches of main, for every corpus and schedule the saved files show all reported values, none is saved twice, there are at most as many as tuples, each is a smallest file for something it shows, those of the first loop are exactly the files that alone show a tuple, the others are saved rarest tuple first, and the crash list names each file with an empty trace once |
| CminMain.RunExists | AFLplusplus/afl-cmin.py:667-704 | for every corpus and number of workers the run that main starts can be completed |
| CminMain.CoversRenumbered | AFLplusplus/afl-cmin.py:437-437 | covering the renumbered tuples is covering the reported values |
| CoverageBytes.AfterIsUnion | AFLplusplus/include/coverage-64.h:109-109 | after any sequence of traces each virgin byte is the initial one less the union of the traces |
| CoverageBytes.OrderIndependent | AFLplusplus/include/coverage-64.h:83-113 | the final virgin map does not depend on the order of the traces |
| CoverageBytes.ReplayReportsNothing | AFLplusplus/include/coverage-64.h:83-113 | a trace seen before has novelty 0 |
| CoverageBytes.NewIffMeets | AFLplusplus/include/coverage-64.h:89-89 | there is novelty exactly when some byte has a bit that is still virgin |
| CoverageMap.DiscoverAll | AFLplusplus/include/coverage-64.h:83-113 | folding discover_word over the words returns the largest bytewise novelty (0, 1 or 2) and clears exactly the seen bits |
| CoverageMap.DiscoverRun | AFLplusplus/include/coverage-64.h:83-113 | over any sequence of traces each result is the novelty against the map that the earlier ones left; on a map that starts untouched it is 2 exactly when the trace hits a byte that no earlier trace hit |
| CoverageBytes.TwoIffFirstHit | AFLplusplus/include/coverage-64.h:96-103 | the same byte by byte |
| CoverageMap.ClassifyCounts | AFLplusplus/include/coverage-64.h:64-79 | the loop that skips zero words classifies every byte of the map |
| CoverageMap.SimplifyTrace | AFLplusplus/include/coverage-64.h:32-62 | the loop with its shortcut for zero words simplifies every byte of the map |
| CoverageMap.SkimScalar | AFLplusplus/include/coverage-64.h:184-197 | true exactly when the classified bytes of some word meet the virgin map, for every map of whole groups of four words |
| CoverageMap.SkimVector | AFLplusplus/include/coverage-64.h:117-178 | the same for the groups of four and of eight words that are skipped when all zero |
| CoverageMap.SkimAgrees | AFLplusplus/include/coverage-64.h:117-197 | the raw words are interesting exactly when classify_counts followed by the novelty fold reports something |
| CoverageMap.SlowPath | AFLplusplus/include/coverage-64.h:64-199 | each skim run before the slow path predicts its result, and when it says no the slow path leaves virgin as it was |
| CoverageWords.DiscoverSound64 | AFLplusplus/include/coverage-64.h:83-113 | the 64-bit word test is the maximum of the old result and the novelty of its eight bytes |
| CoverageWords.DiscoverSound32 | AFLplusplus/include/coverage-32.h:73-101 | the 32-bit word test is the maximum of the old result and the novelty of its four bytes |
| CoverageWords.ClassifySound64 | AFLplusplus/include/coverage-64.h:17-30 | four lookups of 16 bits classify the eight bytes |
| CoverageWords.ClassifySound32 | AFLplusplus/include/coverage-32.h:13-24 | two lookups of 16 bits classify the four bytes |
| CoverageWords.SimplifySound64 | AFLplusplus/include/coverage-64.h:32-62 | the stored ones of a zero word are what the table gives for eight zero bytes |
| CoverageWords.SimplifySound32 | AFLplusplus/include/coverage-32.h:26-52 | the same for four bytes |
| CoverageWords.Sound64 | AFLplusplus/include/coverage-64.h:17-113 | the 64-bit operations meet all that the scans need, for every per-byte class table that keeps zero |
| CoverageWords.Sound32 | AFLplusplus/include/coverage-32.h:13-101 | the 32-bit operations do too |
| CoverageWords.BuildsAgree | AFLplusplus/include/coverage-32.h:73-101 | on maps with the same bytes the 32-bit and the 64-bit build report the same and leave the same bytes |
| HavocWords.SwapStoresBig | AFLplusplus/include/types.h:107-123 | storing a swapped word in little-endian order stores it big-endian |
| HavocWords.SwapReadsBig | AFLplusplus/include/types.h:107-185 | swapping a word read in little-endian order reads it big-endian |
| HavocWords.Arith32BeIsLittle | AFLplusplus/include/afl-mutations.h:2062-2074 | the two swaps of MUT_ARITH32BE cancel: the code adds in little-endian order |
| HavocWords.Arith32BeDiffers | AFLplusplus/include/afl-mutations.h:2062-2074 | on a zero word the result differs from a big-endian addition |
| HavocWords.Arith32BeRightIff | AFLplusplus/include/afl-mutations.h:2062-2074 | it equals the big-endian addition exactly for the item 1 on four bytes 0xff |
| HavocShuffle.ShuffledFrom | AFLplusplus/include/afl-mutations.h:2295-2321 | the shuffled block is the old block read through the source permutation of the draws |
| HavocShuffle.ShuffledBag | AFLplusplus/include/afl-mutations.h:2295-2321 | the shuffle keeps the multiset of bytes |
| HavocShuffle.ShuffleIsCycle | AFLplusplus/include/afl-mutations.h:2304-2317 | because j is never i, the permutation is one cycle through all positions |
| HavocShuffle.NoFixedPosition | AFLplusplus/include/afl-mutations.h:2304-2317 | such a cycle of at least two positions leaves none in place |
| HavocShuffle.ShuffleMeaning | AFLplusplus/include/afl-mutations.h:2295-2321 | every shuffle of at least two positions is one cycle without a fixed position that keeps the bytes |
| HavocNumber.Parse | AFLplusplus/include/afl-mutations.h:2420-2436 | the value is the exact decimal value of the parsed digits, within signed 64 bits, and parsing stops early only if one more digit would leave them |
| HavocNumber.DropDigit | AFLplusplus/include/afl-mutations.h:2440-2512 | dividing the value by ten is dropping the last digit of the run, and a value of ten or more has two digits to drop from |
| HavocNumber.StrategyInRange | AFLplusplus/include/afl-mutations.h:2440-2512 | every strategy stays in signed 64 bits, and one that shortens the run leaves a digit and keeps value and run together |
| HavocNumber.StrategyMeans | AFLplusplus/include/afl-mutations.h:2440-2512 | going up, down and doubling shorten the number exactly when the plain result would leave 64 bits; halving is toward zero; the drawn steps are exact away from the ends; the last strategy is the 64-bit complement |
| HavocNumber.StrategiesInvert | AFLplusplus/include/afl-mutations.h:2440-2512 | up and down undo each other, halving undoes doubling, and the complement undoes itself |
| HavocNumber.StoredNumber | AFLplusplus/include/afl-mutations.h:2514-2517 | the text that snprintf leaves is a number for every value, and reads back as the value exactly from -999999 to 9999999 |
| HavocNumber.TruncatedNumber | AFLplusplus/include/afl-mutations.h:2514-2517 | 12345678 is stored as 1234567 |
| HavocSpec.AsciiNumStores | AFLplusplus/include/afl-mutations.h:2514-2545 | after MUT_ASCIINUM that text stands at the run, and spells the value of the strategy exactly in that range |
| HavocSpec.InsertAsciiNumMeans | AFLplusplus/include/afl-mutations.h:2573-2589 | the stored digits spell the drawn number, or its remainder modulo 10^n when it has more digits; the rest stays |
| HavocSpec.Arith16Means | AFLplusplus/include/afl-mutations.h:1964-2018 | the two bytes, read in the byte order of the kind, go up or down by the item modulo 2^16; the rest stays |
| HavocSpec.Arith32Means | AFLplusplus/include/afl-mutations.h:2020-2074 | the same for four bytes modulo 2^32, where MUT_ARITH32BE counts little-endian |
| HavocSpec.ByteMeans | AFLplusplus/include/afl-mutations.h:1944-1962 | MUT_ARITH8 steps the number of one byte modulo 256, and so do the byte kinds by one; MUT_FLIP8 takes it from 255; the rest stays |
| HavocSpec.InterestingMeans | AFLplusplus/include/afl-mutations.h:1892-1942 | the interesting word stands at the position as a number in the named byte order |
| HavocSpec.MaskMeans | AFLplusplus/include/afl-mutations.h:1871-1880 | MUT_FLIPBIT changes exactly the drawn bit, MUT_RAND8 changes the byte and the same mask restores it; the rest stays |
| HavocArith.AddNumber16 | AFLplusplus/include/afl-mutations.h:1964-2018 | 16-bit addition and subtraction are those of the numbers with wrap-around |
| HavocArith.AddNumber32 | AFLplusplus/include/afl-mutations.h:2020-2074 | 32-bit addition and subtraction are those of the numbers with wrap-around |
| HavocSpec.EffectKeepsBounds | AFLplusplus/include/afl-mutations.h:1863-2733 | no legal mutation leaves an empty test case or one over max_len |
| HavocSpec.RunKeepsBounds | AFLplusplus/include/afl-mutations.h:1863-2733 | nor does any sequence of them |
| HavocSpec.ExchangeKeepsBytes | AFLplusplus/include/afl-mutations.h:2233-2275 | exchanging two disjoint blocks keeps the bytes and undoes itself |
| HavocEngine.ChooseBlockLen | AFLplusplus/include/afl-mutations.h:1760-1799 | the length lies in the range of a class that the queue cycle and the first ten minutes permit, cut to the limit and starting at 1 when the class starts at or above it; so at most 32 in the first ten minutes or the first cycle and at most 128 in the second, and 1 for a limit of 0 |
| HavocRandom.RandBelow | AFLplusplus/include/afl-fuzz.h:1364-1391 | the residue of any accepted draw is below the limit, and 0 for a limit up to 1 |
| HavocRandom.Reject | AFLplusplus/include/afl-fuzz.h:1382-1389 | the loop returns the residue of the first accepted draw of any sequence, and stops at no other |
| HavocRandom.NoBias | AFLplusplus/include/afl-fuzz.h:1377-1389 | every residue has exactly UINT64_MAX / limit accepted draws, so none is favoured |
| HavocEngine.Havoc.Splice | AFLplusplus/include/afl-mutations.h:2519-2545 | head, new bytes and tail through the temporary buffer replace exactly the given range |
| HavocEngine.Havoc.InsertInPlace | AFLplusplus/include/afl-mutations.h:2613-2633 | moving the tail up and storing the bytes inserts them |
| HavocEngine.Havoc.DeleteBytes | AFLplusplus/include/afl-mutations.h:2277-2293 | moving the tail down deletes exactly the range |
| HavocEngine.Havoc.MutArith16 | AFLplusplus/include/afl-mutations.h:1964-2018 | the four 16-bit kinds add or subtract 1 to 35 in the byte order they name |
| HavocEngine.Havoc.MutArith32 | AFLplusplus/include/afl-mutations.h:2020-2074 | the 32-bit kinds do too, but the big-endian addition is a little-endian one |
| HavocEngine.Havoc.MutCloneCopy | AFLplusplus/include/afl-mutations.h:2089-2126 | a block of the test case is inserted at a position of it |
| HavocEngine.Havoc.ChooseSwitch | AFLplusplus/include/afl-mutations.h:2239-2259 | the two blocks are inside the test case and disjoint |
| HavocEngine.Havoc.SwitchBlocks | AFLplusplus/include/afl-mutations.h:2261-2272 | three copies through the temporary buffer exchange the blocks |
| HavocEngine.Havoc.ShuffleBlock | AFLplusplus/include/afl-mutations.h:2301-2319 | the swap loop computes the shuffle of its draws on the block and leaves the rest alone |
| HavocEngine.Havoc.FindDigit | AFLplusplus/include/afl-mutations.h:2375-2411 | the wrapping search finds a digit exactly when there is one |
| HavocEngine.Havoc.ParseRun | AFLplusplus/include/afl-mutations.h:2411-2438 | the run and its signed value |
| HavocEngine.Havoc.ReplaceNumber | AFLplusplus/include/afl-mutations.h:2440-2550 | the printed number replaces the run, which keeps off < off2 <= len, or the step is retried near max_len |
| HavocEngine.Havoc.Attempt | AFLplusplus/include/afl-mutations.h:1863-2733 | each of the 37 kinds either does one legal edit of that kind, or leaves the test case alone under the length guards that the code tests, or is retried under its own guards and then changed nothing; accesses stay inside the buffers |
| HavocEngine.Havoc.Mutate | AFLplusplus/include/afl-mutations.h:1863-2735 | a run is a run of attempts on the drawn kinds, completes all its steps unless the draws end, and equals its sequence of edits |
| HavocEngine.AflMutate | AFLplusplus/include/afl-mutations.h:1801-2735 | 0 is returned, and nothing changed, exactly for a NULL or empty buffer or a failed allocation; otherwise the result is the length after a run on the kinds of the array that belongs to the two mode flags |
| HavocEngine.FollowedMutates | AFLplusplus/include/afl-mutations.h:1863-2733 | retries leave no trace: a run of attempts is the run of its completed edits |
| LtoContext.InsertedSkipped | AFLplusplus/instrumentation/SanitizerCoverageLTO.so.cc:1940-2117 | in the code inserted behind a select the walk meets nothing to count, and skip_next is cleared at its one select |
| LtoContext.AllocateLanes | AFLplusplus/instrumentation/SanitizerCoverageLTO.so.cc:1984-2036 | a vector select gives two IDs to each lane in order, with the context added to those of the first lane alone |
| LtoContext.RealPass | AFLplusplus/instrumentation/SanitizerCoverageLTO.so.cc:1870-2119 | the walk over the list it inserts into ends; it gives IDs to the original instructions alone, in order, as many as the dry run counts, and leaves each handled select with its code right behind it |
| LtoContext.Pass.DryRun | AFLplusplus/instrumentation/SanitizerCoverageLTO.so.cc:1678-1740 | the dry run counts the IDs of instructions and of instrumented blocks |
| LtoContext.Pass.Inject | AFLplusplus/instrumentation/SanitizerCoverageLTO.so.cc:2255-2321 | the injection gives one ID to each block that the dry run counted, in order |
| LtoContext.Pass.InstrumentFunction | AFLplusplus/instrumentation/SanitizerCoverageLTO.so.cc:1674-2165 | the consistency check never fires, the IDs and their owners are those of the declarative layout, and the range is repeated once per caller |
| LtoIndices.SitesInOrder | AFLplusplus/instrumentation/SanitizerCoverageLTO.so.cc:1870-2165 | the IDs of a function are consecutive from its base, and with contexts exactly the later lanes of vector selects leave the context out |
| LtoIndices.GivenIff | AFLplusplus/instrumentation/SanitizerCoverageLTO.so.cc:1870-2139 | exactly the interesting calls, both arms of every lane of the handled selects and, where blocks are injected, the chosen blocks get an ID |
| LtoIndices.OwnersDistinct | AFLplusplus/instrumentation/SanitizerCoverageLTO.so.cc:1870-2139 | none of them gets two |
| LtoIndices.BlocksCoveredIff | AFLplusplus/instrumentation/SanitizerCoverageLTO.so.cc:2121-2139 | every chosen block has an ID exactly outside context mode, with more than one caller, or when no block was chosen |
| LtoIndices.LostBlock | AFLplusplus/instrumentation/SanitizerCoverageLTO.so.cc:2121-2139 | a function with one caller and one chosen block gets no ID at all in context mode, and one without it |
| LtoModule.InstrumentModule | AFLplusplus/instrumentation/SanitizerCoverageLTO.so.cc:1870-2165 | the ranges of the functions follow each other without gap or overlap, each laid out as declared |
| LtoModule.LaidNumbered | AFLplusplus/instrumentation/SanitizerCoverageLTO.so.cc:1870-2165 | every layout that the pass makes numbers its sites consecutively behind its base |
| LtoModule.SameIndexIff | AFLplusplus/instrumentation/SanitizerCoverageLTO.so.cc:1813-1819 | within a function two indices are equal exactly for the same site, in the same context or where the site leaves the context out |
| LtoModule.FinalLocation | AFLplusplus/instrumentation/SanitizerCoverageLTO.so.cc:1261-1263 | the rounded location is a multiple of 8 above the last ID, at most 8 above it |
| LtoModule.IndicesInjective | AFLplusplus/instrumentation/SanitizerCoverageLTO.so.cc:1261-2165 | over the whole module two indices are equal exactly for the same function and site, in the same context or where the site leaves the context out; every index is above 0 and below the final location |
| LtoModule.NoIndexWraps | AFLplusplus/instrumentation/SanitizerCoverageLTO.so.cc:1813-1819 | as long as the last ID of the module is below 2^32, the index computed with 32-bit multiplication and additions is the unbounded one |
| LtoModule.CollisionFreeIff | AFLplusplus/instrumentation/SanitizerCoverageLTO.so.cc:2012-2031 | different (function, context, site) always have different indices exactly when the module is not built for caller contexts or no function with more than one caller selects on a vector of two or more elements |
| LtoModule.WideIsUnshifted | AFLplusplus/instrumentation/SanitizerCoverageLTO.so.cc:2012-2031 | the site that all contexts share is the last lane, the one inserted last into the vector of IDs |
| LtoModule.VectorCollision | AFLplusplus/instrumentation/SanitizerCoverageLTO.so.cc:2012-2031 | with two callers and one select on two elements, the second (last) lane uses one index in both contexts while the block itself uses two |
| PoolList.CountAfter | AFLplusplus/include/afl-prealloc.h:74-80 | changing the status of one slot changes the number of used slots by exactly that slot |
| PoolList.FreeSlot | AFLplusplus/include/afl-prealloc.h:61-84 | a count below the pool size means that a slot is free |
| PoolList.List.FindFree | AFLplusplus/include/afl-prealloc.h:69-84 | the scan always finds a free slot below the limit |
| PoolList.List.PreAlloc | AFLplusplus/include/afl-prealloc.h:58-88 | the element is not in the list, and the counter still equals the number of used slots |
| PoolList.List.PreFree | AFLplusplus/include/afl-prealloc.h:107-140 | neither the double-free nor the negative-counter branch is reached, and the counter still equals the number of used slots |
| PoolList.LinkLast | AFLplusplus/include/list.h:88-92 | the four pointer writes keep one cycle in both directions, with the element before the head |
| PoolList.Unlink | AFLplusplus/include/list.h:123-130 | the two pointer writes keep one cycle without the element, whose own next pointer stays |
| PoolList.List.Append | AFLplusplus/include/list.h:70-94 | the items are the old ones and the new one, on a fresh list too, and the whole invariant holds |
| PoolList.List.ForeachRemove | AFLplusplus/include/list.h:96-130 | a walk that removes the current element on any chosen visits visits every item once in order and leaves the others in order, equal items included; FATAL exactly before the first append |
| PoolList.List.ForeachClear | AFLplusplus/include/list.h:132-144 | every item is visited and only the head stays, the one slot in use |
| PoolList.List.Remove | AFLplusplus/include/list.h:146-166 | the first occurrence is removed; FATAL exactly when there is none |
| PoolList.List.Contains | AFLplusplus/include/list.h:168-180 | true exactly when the item is in the list; FATAL before the first append |
| PowerOfTwo.SmearWindow | AFLplusplus/include/alloc-inl.h:618-622 | after the five shifts a bit is set exactly when one of the 32 from it upward was |
| PowerOfTwo.NextPow2Exact | AFLplusplus/include/alloc-inl.h:603-625 | the promised result (next power of two, 0 on overflow) is returned exactly for a non-zero argument without a gap of 32 zero bits; any non-zero result is at least the argument |
| PowerOfTwo.SmallHasNoGap | AFLplusplus/include/alloc-inl.h:606-625 | no argument up to 2^32 has such a gap |
| PowerOfTwo.GapExample | AFLplusplus/include/alloc-inl.h:606-625 | at 2^33 + 1 the promise fails |
| PowerOfTwo.NextP2 | AFLplusplus/include/afl-fuzz.h:1432-1443 | the loop returns the smallest power of two that is large enough; it equals next_pow2 exactly without a gap, so on all of 1 to 2^32 |
| GrowBuffer.NextSizeHolds | AFLplusplus/include/alloc-inl.h:683-696 | the requested block always holds the needed size, in the overflow fallback too |
| GrowBuffer.Buffer.Realloc | AFLplusplus/include/alloc-inl.h:663-716 | old bytes kept, the rest zeroed, NULL exactly when growth is refused or nothing was there, and the request is met exactly when adding the header does not wrap |
| GrowBuffer.NullAsPromisedIff | AFLplusplus/include/alloc-inl.h:656-716 | the comment's rule for NULL (a request below 1 or a failed realloc) is followed exactly by a request of 0 that finds no buffer and is refused, and by every other request but the one that wraps to 0 on an empty buffer |
| GrowBuffer.RequestNothing | AFLplusplus/include/alloc-inl.h:656-716 | a request of 0 returns NULL exactly when there was no buffer and realloc refused; else 56 zero bytes or the buffer as it was |
| GrowBuffer.NothingFreed | AFLplusplus/include/alloc-inl.h:656-716 | on a used buffer a request of 0 keeps the block although the comment promises NULL |
| GrowBuffer.DoublesIff | AFLplusplus/include/alloc-inl.h:683-696 | growth from a power of two at least doubles exactly when the request is over twice the size, or has no gap and the double fits |
| GrowBuffer.GrowthDoubles | AFLplusplus/include/alloc-inl.h:683-696 | within 2^32 every growth of a used buffer at least doubles it |
| GrowBuffer.SizeIsOfLargest | AFLplusplus/include/alloc-inl.h:663-716 | within 2^32 the size after any run of granted requests depends on the largest one alone |
| GrowBuffer.SizeSinceRefusal | AFLplusplus/include/alloc-inl.h:663-716 | with any requests refused, the size depends on the largest request since the last refusal alone, and is 0 right after one |
| GrowBuffer.MovesBounded | AFLplusplus/include/alloc-inl.h:656-716 | within 2^32 all blocks that realloc ever moved are together smaller than the last one |

## Left out

- The round, accumulate, scramble and merge functions of XXH3 are parameters in the streaming proofs; `Xxh3Lanes` supplies concrete ones. The hashes of inputs up to 240 bytes are a parameter throughout, and so is the 192-byte default secret.
- Xxh3Stream.State.Digest: requires a total below 2^64, because above it the counter that selects the short path has wrapped.
- Xxh32And64.State64.Digest: requires a total below 2^64 for the same reason.
- Xxh3Theorems.HashChunks: secrets are shorter than 2^64 bytes, the range of a size_t.
- XXH3 128-bit, the NEON, VSX, SVE, SSE2 and AVX512 forms of the hash, alignment and prefetching.
- Subprocess, file, shared-memory and progress-bar code of afl-cmin; a trace is a given function of the file, and basenames within a batch are distinct.
- CminMain.Minimise: does not claim a minimum or irredundant corpus, nor that the saved set is the same for every schedule (ties in most_common may differ); fewer than 2^64 files and tuples.
- The no-dedup path and the naming of crash files in afl-cmin.
- The tables count_class_lookup16 and simplify_lookup are parameters: a class table that works byte by byte and keeps zero, and a simplification that maps zero to one. Maps hold whole groups of the words that a skim steps by.
- HavocRandom.RandBelow: leaves the accepted draw open; the generator and its reseeding are not modelled.
- HavocEngine.AflMutate: takes a finite list of draws, since termination of the retries depends on the random source; the contents of the four strategy arrays are a parameter.
- HavocEngine.Havoc.MutInsertAsciiNum: takes the random 64-bit number as a parameter.
- HavocEngine.Havoc.MutSpliceOverwrite: a NULL splice buffer is an empty one.
- The buffer limit of afl_mutate is taken with max_len + 32768 within 32 bits, so that its length sums do not wrap.
- LtoModule.IndicesInjective: the index of a lane is the value given to it; each insert-element call of the builder starts from the vector type again, and what that leaves of the lanes before the last one is not modelled. A module whose last ID reaches 2^32 is not modelled either (see LtoModule.NoIndexWraps).
- LtoContext.RealPass: each handled select inserts one select behind itself, so a condition that the IR builder folds to a constant is not modelled; nor are indirect calls, invokes, IJON, the search for callers, the pruning of blocks by dominators (a block carries its decision) and the insertion of the context variable itself.
- PoolList.List.Append: an allocation that fails in malloc is FATAL and not modelled.
- PoolList.List.Remove: a removed malloc element is dropped rather than returned to an allocator.
- GrowBuffer.Buffer.Realloc: whether realloc succeeds is a parameter; afl_realloc_exact is not modelled.
- The forkserver, Nyx, snapshots, statistics, user interface, environment lists, CPU dispatch and the t1ha hash body.
