# DS41 tooling: a verified model

This project models the parts of the DS41 release tooling that carry arithmetic, in-place state or
protocol state, and proves what they are relied on for. `dafny verify dfyconfig.toml` checks it.

- **Prime heads and tensor partition** (`NumberTheory`, `Runs`, `PrimeSearch`, `HeadLayout`, `Bytes`,
  `Partition`): the
  strong-pseudoprime test, the search for the next unused accepted number over a shared set, the layout of
  all layers, and the split of a tensor file into rank-local files by copies that survive short writes.
  The main results are that the test accepts every prime except 61 (which is lost because it is one of the
  bases), that the search terminates for every start and every used set, that the head sizes of all layers
  form one gap-free increasing run, and that the split loses and doubles nothing.
- **DenseFix repair** (`PatchHash`, `Bf16`, `DecodeTables`, `FileWrites`, `Repair`, `Validate`, `Manifest`, `Download`): the
  manifest that locates every selected tensor and tables the patch intervals, the chunked
  digest of everything outside the patch intervals, bit-level rounding to BF16, the two decoding tables and what a
  stored word means in them, the 32-row positional
  writes with a possible death between any two of them or inside one, the validator, and the resumable
  range download. The end-to-end results are that a finished repair holds every
  element as its correctly rounded product, and that the validator, with a conversion of its own, accepts an
  artifact exactly when it is the repaired artifact, byte for byte; that the entries share no byte and are what
  the tables list, on which both rest, is proved of every manifest the locating step lets through.
- **Speculative block verification** (`StepHistory`, `LogitRows`, `BlockVerify`): the scan over recorded
  scheduler steps, the indexing of captured logit rows, and the eligibility of a block width. Each checker is
  proved silent exactly on the runs that meet a declarative predicate, and the predicate is shown to give
  the telescoping of prefixes, frontiers and rollbacks, single coverage of every position, and recovery
  after an injected rejection.
- **Crash-safe request runners** (`RunTrace`, `Soak`, `Panel`, `Acquire`, `UsableRequest`): a disk of durable
  records on which a process dies after any number of actions. Every action of a runner must be allowed by
  the trace so far; the runners know only the records, so each proof ties records to the trace.
- **Chat renderer** (`Renderer`, `RendererParse`): think-mode resolution, the one-pass renderer, generation
  continuity, exactly when a longer history keeps the rendered prefix, and a parser that reads a
  rendered history back.
- **Quantisation** (`CacheQuant`, `Q8`): power-of-two block scales with E4M3FN values and signed eight-bit
  blocks, over exact reals.
- **Two compact algorithms** (`FirstMissing`, `TopK`).

Code that updates state in the repository is modelled by methods with loops and by classes; each is proved
against a specification function or predicate, and the lemmas are about that specification.

Three statements one might expect are false of the code, and the model says exactly when they hold: a prime is
accepted unless it is 61 (`PrimeSearch.PrimesAccepted`); equal outside digests of files of two given sizes
imply agreement exactly when the sizes are equal or some byte past the end of the shorter file is outside all
intervals (`PatchHash.DigestDecidesIff`, with `PatchHash.TruncationInsideIntervalUnseen` for the failures); and
the top-k form keeps the valid values unless one of them is the largest integer of the type
(`TopK.KeepsValidValues`, `TopK.SentinelCollides`, `TopK.LargestIntegerLost`).

## Model

| member | source | states |
|---|---|---|
| NumberTheory.Fermat | scripts/partition-ds41-engram2.py:22 | a^(p-1) is 1 modulo a prime p that does not divide a: the starting point of the strong test |
| NumberTheory.SquareRootsOfOne | scripts/partition-ds41-engram2.py:23-26 | modulo a prime only 1 and -1 square to 1: each squaring can be walked back |
| PrimeSearch.TrialDivide | scripts/partition-ds41-engram2.py:17-18 | trial division decides exactly when a listed prime divides n, and then says whether n is that prime |
| PrimeSearch.StrongRound | scripts/partition-ds41-engram2.py:22-27 | one round passes exactly when a^d is 1 or some a^(d 2^j) with j < r is -1 modulo n |
| PrimeSearch.IsPrime | scripts/partition-ds41-engram2.py:15-28 | the test as coded accepts exactly the numbers that are listed, or have no listed divisor and pass to all three bases |
| PrimeSearch.PrimePassesStrongTest | scripts/partition-ds41-engram2.py:21-27 | an odd prime passes the strong test to exactly the bases it does not divide |
| PrimeSearch.PrimesAccepted | scripts/partition-ds41-engram2.py:15-28 | a prime is accepted if and only if it is not 61 |
| PrimeSearch.ExactBelowTrialSquare | scripts/partition-ds41-engram2.py:15-28 | below 41 squared acceptance is primality, 61 aside, composites included |
| PrimeSearch.StrongMeans | scripts/partition-ds41-engram2.py:21-27 | for every odd d and every r with n - 1 = d 2^r, passing to base a is: a^d is 1 modulo n, or some a^(d 2^j) with j < r is n - 1 |
| PrimeSearch.AcceptedMeans | scripts/partition-ds41-engram2.py:15-28 | an accepted number is a prime below 41, or no prime below 41 divides it and it passes to bases 2, 7 and 61 |
| PrimeSearch.AcceptedStrong | scripts/partition-ds41-engram2.py:20-28 | an accepted n from 41 on is a strong and hence a Fermat pseudoprime: for a = 2, 7, 61 the power a^(n-1) is 1 modulo n |
| PrimeSearch.FreshAccepted | scripts/partition-ds41-engram2.py:30-33 | above every start there is an accepted number outside any finite used set |
| PrimeSearch.HeadPool.NextPrime | scripts/partition-ds41-engram2.py:30-33 | the search terminates and returns the least unused accepted number above the start, which it marks used |
| PrimeSearch.HeadPool.OrderSizes | scripts/partition-ds41-engram2.py:40-42 | the heads of one order, although restarted at the vocabulary size, extend the run of all sizes handed out |
| PrimeSearch.HeadPool.LayerSizes | scripts/partition-ds41-engram2.py:38-42 | the orders of one layer extend the same run |
| HeadLayout.Layouts | scripts/partition-ds41-engram2.py:35-45 | all layers together are one gap-free increasing run of accepted numbers, each layer sums to its configured count, and a mismatch is reported for the first layer that misses |
| PrimeSearch.RunHoldsPrimes | scripts/partition-ds41-engram2.py:35-45 | such a run holds every prime of its span except 61, each once |
| HeadLayout.LayoutDetermined | scripts/partition-ds41-engram2.py:35-45 | the configuration determines the layout: stored sizes, or the first layer that misses its sum, with the sum it got |
| HeadLayout.HeadSizesDistinct | scripts/partition-ds41-engram2.py:35-45 | sizes strictly increase along orders and layers, so no two heads share one |
| HeadLayout.LayoutGives | scripts/partition-ds41-engram2.py:35-45 | each stored layer has (max n-gram - 1) times heads sizes that sum to its configured count, are accepted, not below the vocabulary size, and strictly increase within and across layers |
| HeadLayout.NoneSkipped | scripts/partition-ds41-engram2.py:30-42 | every accepted number from the vocabulary size up to any size handed out is itself handed out, in a layer that can be named |
| HeadLayout.MismatchGives | scripts/partition-ds41-engram2.py:44 | the reported layer is the first whose sum differs from its configured count, and the sum reported is that of the sizes it would have got |
| Runs.RunUnique | scripts/partition-ds41-engram2.py:35-45 | a gap-free run is determined by its start and its length |
| Partition.RanksTile | scripts/partition-ds41-engram2.py:96-98 | the rank ranges tile all rows for every tp and head list, with empty tails |
| Partition.RankHeads | scripts/partition-ds41-engram2.py:96-98 | the rows of a rank are those of heads lo to hi; every rank that does not end at the last head has the same number of heads, the least with which tp ranks hold all |
| Partition.WriteAll | scripts/partition-ds41-engram2.py:52-54 | repeated short writes append the whole view |
| Partition.CopySpan | scripts/partition-ds41-engram2.py:47-55 | under any short writes the copy appends exactly the span, fails exactly on a truncated source, and leaves a faithful prefix then |
| Partition.PlanSpecs | scripts/partition-ds41-engram2.py:59-64 | the planned spans, with running destination offsets, or failure exactly on an embedding tensor without rows |
| Partition.CopyAll | scripts/partition-ds41-engram2.py:79 | all spans in order, stopping exactly at the first that the source does not hold |
| Partition.BuildOne | scripts/partition-ds41-engram2.py:57-90 | which of the four outcomes occurs, the tensor a truncation is reported for, and the exact file of every complete copy, whose header text depends on rank, rank count, row range and spans |
| Partition.LengthWordReads | scripts/partition-ds41-engram2.py:73-76 | the length word decodes to the padded header and the data starts eight-byte aligned |
| Partition.SpanReads | scripts/partition-ds41-engram2.py:64-79 | at each tensor's recorded offset the file holds exactly its source span |
| Partition.EntryReads | scripts/partition-ds41-engram2.py:70-86 | every entry of the written file passes the reader's own size and bounds checks under its own name |
| Partition.Split.RankTensorIs | scripts/partition-ds41-engram2.py:60-64 | a rank's copy of an embedding is its row slice; of any other tensor the whole |
| Partition.Split.Lossless | scripts/partition-ds41-engram2.py:94-100 | joining an embedding over the ranks gives back the source tensor, and every other tensor is whole on every rank |
| Partition.SpecGives | scripts/partition-ds41-engram2.py:59-64 | every planned span: an embedding gets the rank's rows, counted in its own row bytes, any other tensor its whole, and destinations follow one another |
| Partition.RankFileGives | scripts/partition-ds41-engram2.py:66-100 | byte for byte where every tensor of a rank's file stands: behind a length word and padded header, the rows of the rank's heads of an embedding, every byte of any other tensor |
| Partition.TruncatedGives | scripts/partition-ds41-engram2.py:50-51 | a truncation is reported for the first tensor whose wanted bytes reach past the end of the source |
| Partition.PartitionLayer | scripts/partition-ds41-engram2.py:95-100 | the loop over ranks builds each rank's file from its own range under its own header and cannot fail on a clean source |
| Partition.FilesLossless | scripts/partition-ds41-engram2.py:66-100 | what is read of a tensor from the files of all ranks, each at the place its own header gives, joins to the embedding and is the whole of any other tensor |
| PatchHash.UpdateUnpatched | scripts/ds41-densefix.py:350-367 | one chunk feeds exactly its bytes outside the sorted, possibly overlapping intervals and carries a valid index |
| PatchHash.OutsideMeans | scripts/ds41-densefix.py:350-367 | what is hashed of a stream, byte by byte: a byte counts exactly when no interval holds its position |
| PatchHash.Prepare | scripts/ds41-densefix.py:377-396 | for every split into reads the copy equals the source, and the receipt holds its whole and its outside digest; a mismatch is reported exactly when an expected digest differs |
| PatchHash.ValidateOutside | scripts/validate-ds41-densefix.py:142-152 | the streamed check compares exactly the outside digest with the receipt |
| PatchHash.OutsideDigestExact | scripts/validate-ds41-densefix.py:137-152 | for files of one length, and for files of which the longer has an uncovered byte past the end of the shorter, equal outside digests mean equal length and equality at every outside position, and conversely |
| PatchHash.TruncationInsideIntervalUnseen | scripts/validate-ds41-densefix.py:57-72 | a file that loses only bytes inside intervals of any table keeps its outside digest |
| PatchHash.InsideLeavesFreeTail | scripts/validate-ds41-densefix.py:137-152 | intervals that end inside both files leave the digest decisive |
| PatchHash.DigestDecidesIff | scripts/validate-ds41-densefix.py:57-72 | an equal digest implies agreement for all files of two sizes if and only if the sizes are equal or an uncovered byte lies past the shorter end |
| PatchHash.CheckOverlap | scripts/ds41-densefix.py:188-191 | comparing neighbours of the sorted list decides disjointness of all pairs |
| Bf16.AddShiftRoundsToEven | scripts/ds41-densefix.py:434-435 | adding half minus one plus the kept bit and shifting is round-half-even for every value and every shift |
| Bf16.NearestEvenUnique | scripts/ds41-densefix.py:434-435 | round-half-even has one answer |
| Bf16.ConversionSplits | scripts/ds41-densefix.py:433-435 | on a finite word the 32-bit addition never wraps and the sign stays |
| Bf16.ConversionIsNearestEven | scripts/ds41-densefix.py:429-435 | a finite binary32 word goes to the nearest BF16 value in real value, ties to the even encoding, sign kept (section 4.3.1 of IEEE 754-2019) |
| Bf16.NearestCodeUnique | scripts/ds41-densefix.py:429-435 | the nearest BF16 code in real value with ties to even is one code |
| Bf16.ConvertAll | scripts/ds41-densefix.py:429-435 | an array converts element by element to nearest codes, and is refused exactly when some word is not finite |
| Bf16.ProductExact | scripts/ds41-densefix.py:476-479 | a finite product of an E4M3FN weight and an E8M0 scale is exact in binary32 |
| Bf16.ElementNearest | scripts/ds41-densefix.py:476-483 | the stored BF16 is nearest to the exact product, ties to the even code, sign kept |
| Bf16.RoundsUnique | scripts/ds41-densefix.py:476-483 | only one word is so rounded |
| Bf16.ElementExact | scripts/ds41-densefix.py:476-483 | the stored value equals the product if and only if the product lies on the BF16 grid |
| Bf16.LargeScaleOnGrid | scripts/ds41-densefix.py:424-426 | from scale code 3 on, and for code 0, which the table decodes as zero, it always does |
| Bf16.SmallestProductFlushed | scripts/ds41-densefix.py:408-426 | the smallest non-zero product is stored as zero |
| DecodeTables.Fp8Table | scripts/ds41-densefix.py:408-421 | the table loop fills 256 entries with the sign, exponent and mantissa law, NaN at 0x7F and 0xFF |
| DecodeTables.WeightEntry | scripts/ds41-densefix.py:408-421 | the model's integer weight magnitude is the table's entry in units of 2^-9, with its sign and its NaN |
| DecodeTables.ScaleEntry | scripts/ds41-densefix.py:424-426 | the scale entry is 2^(s-127), and zero for code 0 |
| DecodeTables.ProductOfEntries | scripts/ds41-densefix.py:476-479 | in units of 2^-149 the product is the magnitude of the product of the two table entries, negative exactly when the weight code has its sign bit |
| DecodeTables.FiniteProduct | scripts/ds41-densefix.py:479-482 | a product is finite exactly when both entries are and their product is below 2^128 in magnitude |
| DecodeTables.StoredIsNearest | scripts/ds41-densefix.py:476-483 | no BF16 word is nearer to the product of the entries than the stored one, and at a tie the stored one is even |
| DecodeTables.FinishedGives | scripts/ds41-densefix.py:464-491 | after a finished repair the two bytes of element (r, c) are a BF16 value nearest to table entry of weight (r, c) times table entry of scale (r / 32, c / 32), ties to even, sign kept |
| DecodeTables.Landmarks | scripts/ds41-densefix.py:438-447 | weight 0x71 is 144, the largest weight is 448, scale 0x73 is 2^-12, and this pair is stored as 0x3D10 |
| FileWrites.InterruptedThenRerun | scripts/ds41-densefix.py:486-488 | any write sequence stopped anywhere, even inside a write, and then run in full leaves the files of one clean run |
| FileWrites.ChunksTile | scripts/ds41-densefix.py:473-486 | adjacent chunk writes are together one write of the whole payload |
| FileWrites.OrderIrrelevant | scripts/ds41-densefix.py:464-486 | disjoint writes give the same files in any order |
| FileWrites.CheckedIsExclusive | scripts/ds41-densefix.py:187-195 | writes at distinct slots of interval tables free of overlap share no byte |
| FileWrites.ApplyMeans | scripts/ds41-densefix.py:486 | a write leaves its blob at its offset and every other byte as it was |
| FileWrites.SeparateMeans | scripts/ds41-densefix.py:187-195 | writes are exclusive when any two are in different files or one ends before the other starts |
| FileWrites.Artifact.PWrite | scripts/ds41-densefix.py:486 | a positional write puts at its place as much of the blob as the system takes, and the log records it |
| Repair.BlocksTile | scripts/ds41-densefix.py:473-486 | the 32-row blocks tile the interval: together one write of the payload |
| Repair.BlockFinite | scripts/ds41-densefix.py:479-482 | the block's non-finite check, with the tile row of the block |
| Repair.FiniteMeans | scripts/ds41-densefix.py:476-482 | a tensor, or a block, is finite when every one of its elements has a finite product with the scale of its own tile |
| Repair.RepairBlock | scripts/ds41-densefix.py:473-489 | one pass writes exactly its block, or stops: not finite, dead at the budgeted write, or short because the system took fewer bytes than the block has |
| Repair.RepairEntry | scripts/ds41-densefix.py:464-491 | one tensor: what was written is a prefix of its plan; success means every row was finite and the recorded hash was fed exactly the repaired rows |
| Repair.RepairAll | scripts/ds41-densefix.py:464-502 | the whole run: whatever ends it has its cause, the log is a prefix of the planned writes, complete exactly when done; when done on disjoint entries every element decodes to its rounded product, and the recorded hashes are those of the repaired rows |
| Repair.RepairedElement | scripts/ds41-densefix.py:464-491 | after a finished repair of disjoint entries element (r, c) stands at its place, with the scale of its tile |
| Repair.RepairedValue | scripts/ds41-densefix.py:476-486 | its two bytes decode to the one BF16 word nearest to weight times scale, ties to even, sign kept |
| Repair.FinishedDecodes | scripts/ds41-densefix.py:464-491 | after a finished repair, from any earlier writes, the two bytes of every element of every entry decode to its rounded product |
| Repair.RepairedElsewhere | scripts/ds41-densefix.py:464-491 | no byte outside the payloads changes |
| Repair.ElsewhereMeans | scripts/ds41-densefix.py:464-491 | a byte outside the two-byte matrices of all entries of its shard keeps its value, and no file changes length |
| Repair.RepairRestarts | scripts/ds41-densefix.py:450-505 | dying at any write and running again gives the files of one clean run |
| Repair.EntryOrderIrrelevant | scripts/ds41-densefix.py:464-491 | disjoint entries may be repaired in any order |
| Repair.RepairPassesValidation | scripts/validate-ds41-densefix.py:137-152 | a repaired shard keeps the outside digest of its copy |
| Validate.CompareBlock | scripts/validate-ds41-densefix.py:114-121 | one block comparison extends what is known of the rows read so far, or refutes the tensor |
| Validate.CompareTensor | scripts/validate-ds41-densefix.py:103-133 | no mismatch is counted exactly when the source is finite and the file holds the rows converted, and the count is that of all rows |
| Validate.AmissCounts | scripts/validate-ds41-densefix.py:114-121 | the number of mismatches reported is the number of element positions at which file and converted rows differ |
| Validate.HashPayload | scripts/validate-ds41-densefix.py:75-83 | in reads of any length exactly the span is hashed; it fails exactly when the file is too short |
| Validate.CheckTensor | scripts/validate-ds41-densefix.py:113-133 | a tensor passes exactly when it is finite, in place, and the recorded hash is that of its rows |
| Validate.SameConversion | scripts/validate-ds41-densefix.py:42-54 | any conversion to a nearest word, ties to even and sign kept, agrees with the repair on every finite pair of codes |
| Validate.SameRows | scripts/validate-ds41-densefix.py:42-54 | so the validator's own rows are the repaired rows |
| Validate.ValidateAll | scripts/validate-ds41-densefix.py:102-152 | under the validator's own conversion acceptance is exactly: every tensor passes and every outside digest matches; a rejection names the first tensor or a shard at fault |
| Validate.ShardExact | scripts/validate-ds41-densefix.py:86-158 | a shard holds all its repaired rows and keeps its outside digest if and only if it is the repaired shard |
| Validate.AcceptedIsRepaired | scripts/validate-ds41-densefix.py:86-158 | with an independent conversion and the recorded hashes, the validator accepts an artifact if and only if it is the repaired artifact, byte for byte |
| Validate.DenseFixIndependent | scripts/ds41-densefix.py:408-435 | the repair's own conversion meets what is required of the validator's, so the requirement can be met |
| Manifest.SortedApart | scripts/ds41-densefix.py:188-191 | comparing neighbours after sorting by start and end decides whether any two of the listed intervals overlap, in whatever order they were listed |
| Manifest.LocateShard | scripts/ds41-densefix.py:170-197 | the selected tensors of a shard are all recorded at their places and tabled in order, or the first fault met is a name that occurs twice, a tensor that is not BF16, or an overlap |
| Manifest.CountMeansAll | scripts/ds41-densefix.py:198-200 | as many places as entries means that every entry was found and none is listed twice |
| Manifest.Locate | scripts/ds41-densefix.py:163-200 | a manifest comes out exactly when every entry is listed once and stands in one place, as BF16, and no two selected tensors of a shard overlap; otherwise the fault reported is one that is there |
| Manifest.SoundMeans | scripts/ds41-densefix.py:163-200 | sound input in plain terms: entry names distinct, selected tensors distinct and BF16, every entry found, no overlap in any shard |
| Manifest.Fill | scripts/ds41-densefix.py:231-240 | the entries stand where their tensors were located, up to the first whose bytes are not twice rows times columns or not as listed |
| Manifest.PayloadsExclusive | scripts/ds41-densefix.py:187-240 | the entries of a located manifest share no byte, which is what the repair relies on |
| Manifest.TableLists | scripts/ds41-densefix.py:184-196 | the table of a shard lists exactly the entries that go into it |
| Manifest.AcceptedIsRepaired | scripts/validate-ds41-densefix.py:86-158 | for the entries of any located manifest the validator accepts an artifact if and only if it is the repaired artifact |
| Download.RangeFile.Store | scripts/ds41-densefix.py:297-304 | append or create, then exactly the non-empty chunks |
| Download.Attempt | scripts/ds41-densefix.py:295-308 | one request is one reply: it fails exactly when the reply is not a 206 for exactly the asked range with a known total and the right length, breaks off, or is empty; an accepted reply's bytes are stored behind the old content, any other changes nothing; the file stays a prefix of the source |
| Download.DownloadOne | scripts/ds41-densefix.py:281-314 | the replies decide the run: it ends complete at the first that brings the file to full size without failing, so one complete accepted reply suffices; it gives up only after the allowed number, the last of which failed or left the file short; complete means the file is the slice of the source (Content-Range, section 14.4 of RFC 9110) |
| StepHistory.CheckPositions | scripts/validate-ds41-block-verify.py:188-203 | reports each deserved fault of order, number, anchor, scheduler start, width and rollback (also for a frontier that is no number), and no other |
| StepHistory.CheckDispatch | scripts/validate-ds41-block-verify.py:215-237 | accuses exactly the kernel families that did not run their expected path |
| StepHistory.SectionMeans | scripts/validate-ds41-block-verify.py:217-237 | a kernel family's counters are clean for one token, or for two to four tokens under its row-wise control, when it only ran the fast path; otherwise when it only fell back, each time for the token count |
| StepHistory.CheckStep | scripts/validate-ds41-block-verify.py:176-245 | silent exactly on a clean step; then the emitted tokens and the selection are extended as specified |
| StepHistory.PacketMeans | scripts/validate-ds41-block-verify.py:176-237 | for a packet with consecutive positions a clean step is spelt out: oracle, cap, anchor, scheduler start, draft count, frontier, wall time and the counters past the activation point |
| StepHistory.SelectedMeans | scripts/validate-ds41-block-verify.py:238-245 | a step is measured exactly when it is a decode packet of full width, fully accepted, past the activation point and within the cap |
| StepHistory.ScanSteps | scripts/validate-ds41-block-verify.py:174-245 | the loop is silent exactly when every step is clean given all earlier emissions |
| StepHistory.CheckHistory | scripts/validate-ds41-block-verify.py:164-253 | the whole check is silent exactly on clean histories |
| StepHistory.HistoryMeans | scripts/validate-ds41-block-verify.py:164-253 | a clean history in plain terms, with the caps 32 and 64 |
| StepHistory.PrefixesTelescope | scripts/validate-ds41-block-verify.py:177-206 | every prefix is the concatenation of all earlier emissions, and the output is the capped oracle |
| StepHistory.FrontierIsAnchor | scripts/validate-ds41-block-verify.py:199-203 | the recorded frontier of an emitting decode step is prompt plus emitted minus one, whatever was rejected |
| StepHistory.NextStartsAtFrontier | scripts/validate-ds41-block-verify.py:192-203 | it is the anchor and the scheduler start of the next scheduled step |
| StepHistory.SelectedStepsDisjoint | scripts/validate-ds41-block-verify.py:238-245 | measured steps count no output token twice |
| StepHistory.CountedAtMostOnce | scripts/validate-ds41-block-verify.py:238-245 | the tokens counted for throughput are at most the tokens emitted |
| StepHistory.HonestPacketClean | scripts/validate-ds41-block-verify.py:176-237 | a packet as a correct scheduler records it raises no fault, whatever its width and however many drafts are rejected |
| LogitRows.ReadRow | scripts/validate-ds41-block-verify.py:124-136 | one row is validated, then kept, skipped or refused as a repeat |
| LogitRows.PacketMeans | scripts/validate-ds41-block-verify.py:96-126 | when a packet is well formed, in plain terms, and the one exception of a prefill with a single row |
| LogitRows.ReadRecords | scripts/validate-ds41-block-verify.py:91-140 | reading succeeds exactly when every packet is well formed and no position gets two rows; the rows are then indexed without loss |
| LogitRows.KeptBeforeFirstChange | scripts/validate-ds41-block-verify.py:115-131 | a row is kept exactly when no input up to it was changed, that is before the first changed one |
| LogitRows.KeptMeans | scripts/validate-ds41-block-verify.py:109-136 | at which position a row is kept: inside the window, and every input up to it is the token of prompt and oracle |
| LogitRows.CorruptionMeans | scripts/validate-ds41-block-verify.py:115-121 | a recorded corruption names a packet with changed inputs, and the position of the first of them |
| BlockVerify.Compare | scripts/validate-ds41-block-verify.py:143-161 | all gates pass exactly when there is a row and each has a baseline row it meets |
| BlockVerify.GateMeans | scripts/validate-ds41-block-verify.py:143-152 | a row meets the gate when the widths agree, the relative error is at most 1/200 in squares, no entry differs by more than 1/8, and both have their first largest entry at one index |
| BlockVerify.CheckWidth | scripts/validate-ds41-block-verify.py:288-306 | a width has no structural error exactly when its capture is clean, covers the window and holds a packet of that width |
| BlockVerify.WidthPasses | scripts/validate-ds41-block-verify.py:288-311 | a width is granted exactly when it and the baseline are clean and all gates pass |
| BlockVerify.EligibleWidth | scripts/validate-ds41-block-verify.py:285-311 | then every position from prompt + 7 to the last but one has exactly one row in both runs, from packets that agree with the oracle up to it, and meets the gate |
| BlockVerify.EligibleMeans | scripts/validate-ds41-block-verify.py:285-311 | for a granted width the thresholds, the common top entry at every window position, and a packet of that width |
| BlockVerify.CoveredOnce | scripts/validate-ds41-block-verify.py:93-136 | each indexed position has one row, whose packet matches the oracle and is anchored at its committed prefix |
| BlockVerify.CheckControl | scripts/validate-ds41-block-verify.py:312-395 | a rejection control passes exactly under its declared conditions |
| BlockVerify.PlannedMeans | scripts/validate-ds41-block-verify.py:345-378 | a corruption as planned: one changed input, one injection, one observed rejection with its counts, rows before and at least three after it |
| BlockVerify.ControlMeans | scripts/validate-ds41-block-verify.py:312-395 | a passing control in plain terms |
| BlockVerify.RecoveryNeverCollides | scripts/validate-ds41-block-verify.py:115-136 | a corrupted packet contributes only rows before the changed input |
| BlockVerify.ControlRecovers | scripts/validate-ds41-block-verify.py:335-393 | a passing control covers every position once, with rows from other packets from the change on and gated agreement with the clean run before it |
| RunTrace.SendsSeparated | scripts/run-ds41-daily-panel.py:26-34 | in any disciplined trace two sends of one case have a durable failure record between them |
| RunTrace.SentAtMostOnce | scripts/run-ds4-usable-request.py:172-175 | without retries a case is sent at most once |
| RunTrace.NothingAfterComplete | scripts/run-ds41-daily-panel.py:28 | nothing happens to a case after its completion |
| RunTrace.OneInFlight | scripts/run-ds41-daily-soak.py:136-138 | at every moment at most one case of an ordered list is in flight |
| RunTrace.SentAgainAtMostOnce | scripts/run-ds41-daily-soak.py:94-103 | without retries a case makes at most one further request |
| RunTrace.CompletedOnce | scripts/run-ds41-daily-soak.py:144-154 | a completed case was sent and ended exactly once, in this order |
| RunTrace.Disk.Act | scripts/run-ds41-daily-soak.py:7-8 | an action happens as a whole or not at all, and records keep matching the trace |
| UsableRequest.Request | scripts/run-ds4-usable-request.py:172-179 | refuses when a record exists; otherwise a process that ends has recorded, sent and ended exactly once, with the outcome of the transport |
| UsableRequest.Requests | scripts/run-ds4-usable-request.py:172-179 | over any invocations and deaths no identifier is sent twice |
| Panel.Campaign.RunOne | scripts/run-ds41-daily-panel.py:22-51 | a complete case is answered without a send, one in flight is refused without a send, any other is begun anew behind completed predecessors, only when the service is live, and ends as observed |
| Panel.Campaign.AllPass | scripts/run-ds41-daily-panel.py:61-62 | true exactly when every repetition of that kind and size completed |
| Panel.Campaign.RunAll | scripts/run-ds41-daily-panel.py:64-79 | exit code 0 means all cases completed, 2 and 3 name a failed case behind completed ones, a case in flight ends the run without a send, and only death, a dead service or a case in flight leave no code |
| Panel.Campaign.Processes | scripts/run-ds41-daily-panel.py:22-79 | over any number of processes the invariant holds, and a case left in flight is never sent again |
| Panel.Campaign.SentWhenAllowed | scripts/run-ds41-daily-panel.py:26-79 | whenever a case is sent, every smaller case has completed, it has not, and any earlier send of it ended in a recorded failure |
| Panel.GateOpen | scripts/run-ds41-daily-panel.py:75 | the gate in front of the 64k cases is implied by having reached it |
| Acquire.Classify | scripts/run-ds41-daily-coding-acquire.py:15-24 | pending exactly for the four running states, blocked exactly for system failures, complete only with a final response, failed only without |
| Acquire.Acquisition.Poll | scripts/run-ds41-daily-coding-acquire.py:43-46 | polling records the outcome of the first reply that is not pending, or leaves everything as it was |
| Acquire.Acquisition.AcquireOne | scripts/run-ds41-daily-coding-acquire.py:33-46 | a settled task is reused, a submission without identifier is never repeated, any other is settled in place |
| Acquire.Acquisition.Run | scripts/run-ds41-daily-coding-acquire.py:32-47 | completion means every task settled; a lost submission stops the run without a send |
| Acquire.Acquisition.Processes | scripts/run-ds41-daily-coding-acquire.py:32-47 | over any number of processes a lost submission ends all progress |
| Acquire.Acquisition.PostedAtMostOnce | scripts/run-ds41-daily-coding-acquire.py:32-46 | each name is posted at most once, in list order, after all earlier ones ended |
| Soak.CountMeansAll | scripts/run-ds41-daily-soak.py:158 | counting 24 completed records is the same as every case being complete |
| Soak.Registry.Execute | scripts/run-ds41-daily-soak.py:144-154 | the case is recorded as in flight, sent, the busy case a second time exactly when the probes after its first request are answered, and recorded as it ended; without the second request the busy case ends failed |
| Soak.Registry.RunCase | scripts/run-ds41-daily-soak.py:139-155 | waits for its turn; nothing is begun while the service is not ready or busy, the recorded outcome is the observed one, and each exit code has its cause and its registry state |
| Soak.Registry.Run | scripts/run-ds41-daily-soak.py:134-158 | a case in flight stops the run unsent with code 3; code 0 means all cases ended, and PASS exactly when all completed and the service is healthy; every other code has its cause, and only death leaves none |
| Soak.Registry.Processes | scripts/run-ds41-daily-soak.py:130-158 | over any number of processes the invariant holds, and a case left in flight ends all progress |
| Soak.Registry.SentInTurn | scripts/run-ds41-daily-soak.py:135-148 | sends go strictly forward, case i not before i shares of minimum / 23 after start, all earlier cases ended and no later one begun |
| Soak.Registry.SecondRequest | scripts/run-ds41-daily-soak.py:94-103 | a second request belongs to the busy case, follows its send and is made once; the busy case cannot have completed without it |
| Soak.Registry.PassMeansExactlyOnce | scripts/run-ds41-daily-soak.py:156-158 | in state PASS every one of the 24 cases was sent once and completed once, case i not before i shares of minimum / 23 after start, and the minimum time has passed |
| Renderer.ResolveThinkMode | scripts/serve-ds4-usable-tokenizer.py:28-53 | the last control that speaks decides; unsupported efforts are exactly those outside the named five |
| Renderer.LastSwitch | scripts/serve-ds4-usable-tokenizer.py:28-43 | the thinking switch is that of the last control that sets one, at whatever position; without any it is on |
| Renderer.LastEffort | scripts/serve-ds4-usable-tokenizer.py:28-43 | the effort is that of the last control that names one, and high without any |
| Renderer.RenderMessage | scripts/serve-ds4-usable-tokenizer.py:72-99 | one message appends exactly the segments of the specification step |
| Renderer.Render | scripts/serve-ds4-usable-tokenizer.py:55-102 | the output is the specified rendering, and rendering fails exactly on an unsupported message, with the reason of the first |
| Renderer.LastUserMeans | scripts/serve-ds4-usable-tokenizer.py:67-71 | which roles close the reasoning: the last message of a user, tool or function, or of a system or developer that is not the first |
| Renderer.RunText | scripts/serve-ds4-usable-tokenizer.py:72-99 | the characters each role appends, and how it moves the two flags |
| Renderer.RenderedText | scripts/serve-ds4-usable-tokenizer.py:55-102 | what stands in front and the generation prompt at the end, as characters |
| Renderer.MarkTexts | scripts/serve-ds4-usable-tokenizer.py:11-15 | the seven control tokens |
| Renderer.GenerationContinuity | scripts/serve-ds4-usable-tokenizer.py:87-102 | prompt followed by what the model generated equals the re-rendered history with that message appended |
| Renderer.PlainPrefixMonotone | scripts/serve-ds4-usable-tokenizer.py:72-99 | without thinking a longer history only extends the rendering |
| Renderer.UserTurnKeepsPrefixIff | scripts/serve-ds4-usable-tokenizer.py:67-95 | with thinking a new user turn keeps the rendered prefix if and only if no turn of the open exchange shows its thinking |
| Renderer.LowAndNoneCoincide | scripts/serve-ds4-usable-tokenizer.py:50-101 | after a user turn the low and none bodies are equal |
| RendererParse.SplitFlatten | scripts/serve-ds4-usable-tokenizer.py:11-15 | the lexer inverts flattening for marker-free texts, at the level of characters |
| RendererParse.RunIsNormal | scripts/serve-ds4-usable-tokenizer.py:65-99 | in every mode the renderer's segments are those of the history in normal form |
| RendererParse.RoundTrip | scripts/serve-ds4-usable-tokenizer.py:65-102 | in every mode parsing a rendering gives the history with user turns joined, developer read as system, closed reasoning dropped and the numeric effort text in front, continued by a first system message, and the generation prompt |
| RendererParse.PromptedMeans | scripts/serve-ds4-usable-tokenizer.py:87-95 | the condition under which every assistant turn follows a prompt, over the roles alone |
| CacheQuant.CeilLog2 | scripts/check-ds41-swa-recent-kv-reference.py:31 | the exponent whose power of two is the least not below the argument |
| CacheQuant.ScaleIsLeast | scripts/check-ds41-swa-recent-kv-reference.py:30-31 | the scale is the least power of two that brings the block into range, and less than twice what is needed |
| CacheQuant.ExponentClampIdle | scripts/check-ds41-r2-window-qat-differential.py:15 | the exponent clamp changes nothing exactly on a stated range of maxima, which holds every finite BF16 maximum |
| CacheQuant.RoundNearest | scripts/test-ds41-layer0-complete-densefix.py:152 | rounding takes a nearest E4M3FN value, at ties the even code |
| CacheQuant.QdqNearest | scripts/check-ds41-swa-recent-kv-reference.py:32 | a dequantised element is a nearest value at its scale, with ties to the even code |
| CacheQuant.BlockScaleGives | scripts/check-ds41-swa-recent-kv-reference.py:30-31 | the scale of a block is the power of two with 448 times it at least the block maximum and 448 times its half below |
| DecodeTables.CacheValues | scripts/test-ds41-layer0-complete-densefix.py:152 | the values quantised to are those of the weight table |
| CacheQuant.BlockGate | scripts/check-ds41-swa-recent-kv-reference.py:44-45 | the clamp is idle, no element moves by more than 16 scales, and this is below a fourteenth of the maximum exactly when the maximum exceeds 224 * 2^-22 |
| CacheQuant.BoundIsTight | scripts/check-ds41-swa-recent-kv-reference.py:44-45 | a block that attains the bound |
| CacheQuant.TokenGate | scripts/check-ds41-swa-recent-kv-reference.py:44-45 | every element passes the gate of its block and of its token |
| CacheQuant.Idempotent | scripts/test-ds41-layer0-complete-densefix.py:146-153 | quantising a quantised block changes nothing, although its scale may halve |
| CacheQuant.FewBits | scripts/test-ds41-layer0-complete-densefix.py:155 | a dequantised element has at most four significant bits, fewer than BF16 keeps |
| Q8.EmulateError | scripts/validate-ds41-ds4-mmq-numerics.py:14-21 | no clip is needed, each element moves by at most absmax/254 of its block, zero blocks stay zero |
| Q8.EmulateGives | scripts/validate-ds41-ds4-mmq-numerics.py:14-21 | each output is n times the block maximum over 127 for an integer n of at most 127 in magnitude, nearest to the scaled input, halves away from zero |
| Q8.PeakFixed | scripts/validate-ds41-ds4-mmq-numerics.py:17-21 | the largest element of a block is a fixed point |
| Q8.EmulateIdempotent | scripts/validate-ds41-ds4-mmq-numerics.py:14-21 | requantising changes nothing, for every block size and count |
| FirstMissing.SwapProgress | scripts/test-ds41-wob-ab-validator.py:16-18 | each swap keeps the contents and strictly shrinks the set of misplaced positions |
| FirstMissing.Arrange | scripts/test-ds41-wob-ab-validator.py:15-18 | the first pass terminates, permutes, and settles every value that has a place |
| FirstMissing.FirstMissingPositive | scripts/test-ds41-wob-ab-validator.py:13-22 | the least positive number not in the array is returned, and the array is a permutation with every placeable value in place |
| FirstMissing.FirstGap | scripts/test-ds41-wob-ab-validator.py:19-22 | in a settled array the first place without its value is the answer |
| FirstMissing.FirstMissingUnique | scripts/validate-ds41-offline-suite.py:37-41 | the answer is determined by the input |
| TopK.CanonicalForm | scripts/test-ds41-canonical-topk-component.py:6-10 | the output is the kept values ascending, then -1s |
| TopK.CanonicalGives | scripts/test-ds41-canonical-topk-component.py:6-10 | some k values in ascending order, each from 0 to below the sentinel and each as often as in the row, then -1 to the end |
| TopK.KeepsValidValues | scripts/test-ds41-canonical-topk-component.py:6-10 | the valid values survive with multiplicity if and only if none is the sentinel |
| TopK.Idempotent | scripts/test-ds41-canonical-topk-component.py:6-10 | canonicalising twice changes nothing |
| TopK.SameFormSameKept | scripts/test-ds41-canonical-topk-component.py:6-10 | any two rows of one width have one form if and only if they keep the same values, with multiplicity |
| TopK.SameFormSameValid | scripts/test-ds41-canonical-topk-component.py:6-10 | rows of one width, neither of which holds the sentinel, have one form if and only if their valid multisets agree |
| TopK.SentinelCollides | scripts/test-ds41-canonical-topk-component.py:6-10 | a row with the sentinel shares its form with a row of other valid values |
| TopK.LargestIntegerLost | scripts/test-ds41-canonical-topk-component.py:7-10 | the row that holds just the largest integer is turned into -1 |

## Left out

- PrimeSearch.IsPrime: acceptance of a composite above 41 squared is not excluded; that is a matter of search, not of proof.
- Partition.BuildOne: the JSON text of the header is a parameter, a function of rank, rank count, row range and planned spans (the source hash in it is a constant of the layer); the hash of the written file and the reader's JSON parsing are not modelled, and `math.ceil` of a float quotient is taken exactly.
- PatchHash.Prepare: a digest is the byte sequence it was fed, so SHA-256 is taken as injective; writes into the copy are taken as complete, and file modes and inodes are not modelled.
- FileWrites.Artifact.PWrite: how many bytes the system takes of each write is a parameter; the file length and the order of completed writes are as seen by the process; cache and disk reordering are outside.
- Repair.RepairAll: matrices mapped from the download cache are functions from row and column to a byte; the receipt file and the final count of 328 tensors are not modelled.
- Validate.ValidateAll: of the validator's own conversion it is required that it finds the same products finite and rounds them to nearest even with the sign kept; the structural re-open of the container and the report are not modelled.
- Manifest.Locate: shard files have different names; only start and end of a table row are kept, and the checks on headers of the source repository and the final inventory totals are not modelled.
- Download.DownloadOne: writes into the cache file are taken as complete, back-off sleeps take no part, and a response whose headers name a range is taken to carry a prefix of that range of the pinned source.
- StepHistory.CheckHistory: the sampling dictionary is a truth value, and the memory and rate fields that selected steps copy through are not modelled.
- BlockVerify.Compare: the relative error is compared without taking roots, over exact reals; NaN and device checks are part of a row being a finite vector, and reported maxima are not modelled.
- BlockVerify.WidthPasses: the fixed prompt and oracle lengths, label bookkeeping and inference of the vocabulary size are not modelled; the lemmas hold for all lengths.
- RunTrace.Disk.Act: a durable write is atomic and survives, one process runs at a time, leaving by an uncaught exception is one way to die, and the monotone clock does not restart; response bodies, per-case copies of a record and derived registries are not modelled.
- Soak.Registry.Run: what the service answers in one process is a parameter, one answer per case; the two requests of the busy case are taken in the order primary, secondary; creating the registry is the constructor.
- Panel.Campaign.RunAll: the nested loops over sizes and repetitions run over the flattened list of the thirteen cases, and the order in which they appear is kept.
- Acquire.Classify: a reply is three strings, and upper-casing covers ASCII letters.
- Renderer.Render: message fields are already strings or missing; tokenisation is not modelled.
- CacheQuant.BlockGate: exact reals; floating-point error of `log2` and of the division, rotary embedding and overflow of the largest block maxima on scaling back are not modelled.
- Q8.EmulateError: exact reals; single-precision rounding is not modelled.
- Kernels, tensor products, attention comparisons, HTTP and server-sent events, subprocesses, statistics and reports are foreign calls with empirical tolerances or plumbing, and are not part of this model.
