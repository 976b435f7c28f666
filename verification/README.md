# Serving-stack algorithms, verified

This project models the algorithms of a model-serving repository that have no GPU or network in the part that
matters, and proves what they are for. `dafny verify dfyconfig.toml` checks everything.

## What is modelled

**Copy fidelity** (`EditDistance`, `PathClassifier`, `Repetition`). The bounded edit distance is a two-row loop with
two shortcuts; it is proved against shortest edit scripts, which are defined without it. On that rests what a SLIP
label means. The repetition detector cuts a text into its longest stretches without blanks and counts joined strings;
joining is shown to lose nothing.

**The fast-load sidecar** (`TensorMemory`, `ShardNames`, `Packing`, `Sidecar`, `Intactness`, `Dumping`, `Restoring`,
`RoundTrip`, `Sampling`, `Identity`, `Preflight`). A tensor is an object with, for each byte of its row-major form, the
address of that byte; strides are one way to write such a map down. A directory keeps every state it has been in, with
files that are partial before they are whole, so that what holds of every prefix of a dump can be said. A dump followed
by a restore gives every name its bytes back; every prefix of a dump under a new tag leaves an intact directory; the
gates refuse before anything is written.

**Tensor-parallel padding** (`PaddedSharding`, `HeadPadding`, `PadCheck`, `LcmRounding`). Shards that run past the
stored end are zero-extended; they concatenate to the tensor and zeros, and the row-parallel sum is unchanged. Three
refusal rules written in three places refuse the same pads. What the tool makes, the gate inside the engine accepts,
and what the loader fills, the check after loading passes.

**Trace intervals** (`TraceIntervals`, `TraceRegions`, `TraceSteps`, `TraceAttribution`, `TraceCounters`). Merging,
union, the complement in a window, exactly when the look-back slice is enough, steps that tile a span, the innermost
operation around a gap, and conservation of time through every breakdown, each counter being the time of exactly the
gaps it describes.

**Strict schemas** (`JsonValues`, `StrictSchema`, `SchemaNodes`, `SchemaMeaning`, `SchemaNarrowing`,
`SchemaWidening`, `SchemaDocuments`). The rewrite on values, the same rewrite done in place on dictionaries, and what
it does to the set
of accepted instances: a class of schemas that it only narrows, and for each keyword left out of that class exactly
where it widens (JSON Schema Core 2020-12, sections 10.2 and 10.3, and Validation, section 6.5.3).

**Anchored patching** (`AnchoredRewrite`, `PatchLists`), **divergence statistics** (`Percentiles`, `Divergence`,
`PairReports`) and **cache clearing** (`KvZeroing`, `KvLaunches`). `Sorting` and `Options` are shared.

Loops and objects of the source are methods and classes here, proved against functions on values; the lemmas are about
those functions.

## Where code and documentation differ

The model follows the code.

- A SLIP is documented as near a real path (scripts/longctx-copy-fidelity.py:24-25); the code also searches the decoys.
  `PathClassifier.SlipMayBeNearADecoyOnly` gives the case, `SlipsNameRealExactly` and `SlipsNearRealExactly` the
  condition.
- The merge of trace annotations is documented as keeping the widest name (bench/prof-analyze7.py:99); the code keeps
  the first. `TraceRegions.WidestNameLost` gives the case, `WidestNameKept` the condition.
- The refusal of a second build in one directory (patches/tp3/harem_fastload.py:421-427) comes after the new shards are
  on disk, so a refused dump under a known tag has already replaced shards the manifest lists
  (`Dumping.DumpTwoBuilds`).
- Alias detection compares address and size only (patches/tp3/harem_fastload.py:397-398). Two names that start at one
  address with one size and different strides are stored once; the second gets the first one's row-major bytes back.
- Closing a schema widens it under "not", "oneOf" and "maxContains", where an "if" refers to a definition that is
  rewritten, and where a required name is not declared (`SchemaWidening`).
- The preflight check calls itself the early half of the engine's gate (patches/tp3/preflight-fastload.py:8-12); it also
  refuses what the engine would accept, when a shard of the other model is missing or the rank is spelled "01"
  (`Preflight`).
- The second try in the drafter's pad (patches/tp3/pad-tp3.py:185-187) and the assertion on the shared expert
  (patches/tp3/patch-vllm-tp3.py:313-316) are never reached and never fail.

## Model

| member | source | states |
|---|---|---|
| EditDistance.Levenshtein | scripts/longctx-copy-fidelity.py:446-463 | for every cutoff: the result is the distance, or it is the cutoff and the distance is at least that; so below the cutoff the two-row programme with its two shortcuts is exact; of different strings it is the cutoff exactly when the lengths or some row of the table are at the cutoff |
| EditDistance.DistanceIsEditDistance | scripts/longctx-copy-fidelity.py:446-463 | the recurrence computes the number of edits of a shortest insert/delete/substitute script, for all pairs of strings |
| EditDistance.ShortestScript | scripts/longctx-copy-fidelity.py:446-463 | a script of exactly that many edits exists, given step by step |
| EditDistance.NoShorterScript | scripts/longctx-copy-fidelity.py:446-463 | no script from one string to the other has fewer edits |
| EditDistance.DistanceTriangle | scripts/longctx-copy-fidelity.py:446-463 | the distance obeys the triangle inequality |
| EditDistance.RowAbortIsSafe | scripts/longctx-copy-fidelity.py:460-462 | once every cell of a row reaches the cutoff, so does every later cell, the result among them |
| EditDistance.DistanceAtLeastLengthDifference | scripts/longctx-copy-fidelity.py:449-450 | the distance is at least the difference of the lengths, so the length shortcut hides nothing below the cutoff |
| EditDistance.BelowCutoffIsExact | scripts/longctx-copy-fidelity.py:446-463 | a result below the cutoff is the length of a shortest edit script |
| PathClassifier.Corpus.constructor | scripts/longctx-copy-fidelity.py:116-127 | the collected directories are exactly those above some path of the corpus |
| PathClassifier.DirectoriesOfPath | scripts/longctx-copy-fidelity.py:123-127 | the joined prefixes of a path are exactly the directories above it |
| PathClassifier.Corpus.Classify | scripts/longctx-copy-fidelity.py:466-486 | the label returned satisfies what each label claims, in the order of the tests, whatever close match the fuzzy matcher offers |
| PathClassifier.LabelUnique | scripts/longctx-copy-fidelity.py:466-486 | one label fits each candidate, so the result does not depend on the order in which the corpus is searched |
| PathClassifier.SlipMeansOneToThreeEdits | scripts/longctx-copy-fidelity.py:466-486 | a slip is one, two or three edits from the path it names, never zero and never more |
| PathClassifier.SlipMayBeNearADecoyOnly | scripts/longctx-copy-fidelity.py:466-486 | the documented meaning (near a real path) fails: a slip may be near a decoy and far from every real path |
| PathClassifier.SlipsNameRealExactly | scripts/longctx-copy-fidelity.py:466-486 | every slip names a real path exactly when every decoy is a real path, for every corpus with a letter that begins none of its paths |
| PathClassifier.SlipsNearRealNeed | scripts/longctx-copy-fidelity.py:466-486 | for every slip to be within three edits of a real path, each decoy must be a real path but for at most three letters in front |
| PathClassifier.SlipsNearRealExactly | scripts/longctx-copy-fidelity.py:466-486 | where no decoy is a real path cut short in front by one to three letters, every slip is within three edits of a real path exactly when every decoy is a real path |
| PathClassifier.NearTheDecoyIsNear | scripts/longctx-copy-fidelity.py:466-486 | a slip is within three edits of every real path that is close enough to the decoy it names |
| Repetition.HasDegenerateRepetition | scripts/longctx-copy-fidelity.py:489-500 | true exactly when, of the words of the text, which are its longest stretches without blanks in order, some run of n starts at min_count places at least |
| Repetition.CountRuns | scripts/longctx-copy-fidelity.py:493-500 | the counting loop over joined strings decides the same over words already cut |
| Repetition.JoinInjective | scripts/longctx-copy-fidelity.py:495 | joining with blanks is injective on words without blanks, so counting joined strings counts runs |
| Repetition.CutAfterJoin | scripts/longctx-copy-fidelity.py:491-495 | cutting what was joined gives the words back |
| Repetition.WordsAreStretches | scripts/longctx-copy-fidelity.py:490 | for every text, cutting gives exactly the longest stretches without blanks, in order: a blank or an end on either side of each, and no letter outside them |
| Repetition.WordsDetermined | scripts/longctx-copy-fidelity.py:490 | no other list of words of a text is that |
| Repetition.NoLetterLost | scripts/longctx-copy-fidelity.py:490 | the words put together are the text without its blanks |
| Repetition.CutAfterSpacing | scripts/longctx-copy-fidelity.py:490 | words set apart by any blanks, with any in front and behind, are what cutting gives back |
| TensorMemory.Entries | patches/tp3/harem_fastload.py:112-131 | every listed name once, where it is first met and in that order; refused exactly when one name means two tensors |
| TensorMemory.WriteBack | patches/tp3/harem_fastload.py:171-179 | after it the canonical bytes of the tensor are those given, whatever its layout, and no other byte of memory has changed |
| TensorMemory.CopyStraight | patches/tp3/harem_fastload.py:174-176 | the contiguous case puts every byte where the layout has it |
| TensorMemory.CopyStrided | patches/tp3/harem_fastload.py:178-179 | the strided case does too |
| TensorMemory.CanonAfter | patches/tp3/harem_fastload.py:134-179 | writing one tensor leaves those apart from it as they were and changes those with the same layout alike |
| ShardNames.ShardNameInjective | patches/tp3/harem_fastload.py:365 | no two shards share a file name, not even those of two tags that hold dashes |
| Packing.OwnerIsStored | patches/tp3/harem_fastload.py:397-401 | an alias points at an earlier entry of the same address and size that is itself stored |
| Packing.OwnersMeaning | patches/tp3/harem_fastload.py:397-407 | the stored tensors are exactly the entries that are no aliases, each once |
| Packing.GroupsMeaning | patches/tp3/harem_fastload.py:384-412 | the shards hold the stored tensors in order; each but the last reaches the budget, and only with its last tensor |
| Packing.ShardsBelowBudgetPlusLargest | patches/tp3/harem_fastload.py:384-412 | with a positive budget no shard reaches the budget plus the largest tensor |
| Packing.NoBudgetOneTensorPerShard | patches/tp3/harem_fastload.py:384-412 | with a budget of zero or less every stored tensor is a shard of its own |
| Packing.BoundExactly | patches/tp3/harem_fastload.py:384-412 | no shard reaches the budget plus the largest tensor exactly when the budget is positive or nothing is stored |
| Packing.OneShardEach | patches/tp3/harem_fastload.py:402-412 | a name is in one shard only |
| Sidecar.StepProgress | patches/tp3/harem_fastload.py:384-411 | one entry keeps the invariant: counters, addresses, records and files are those of the entries so far |
| Sidecar.FlushDescribes | patches/tp3/harem_fastload.py:361-382 | after the last flush the records describe the model and the files hold its bytes |
| Sidecar.PtrsGrow | patches/tp3/harem_fastload.py:397-406 | the map of addresses names the first entry of each address and size |
| Dumping.Dump.Flush | patches/tp3/harem_fastload.py:361-382 | the buffer becomes the next shard and the records of its tensors name it; meanwhile only shards of this tag change |
| Dumping.Dump.Put | patches/tp3/harem_fastload.py:390-409 | an alias is recorded without bytes; anything else with its hash, its bytes going into the buffer |
| Dumping.Dump.AddAll | patches/tp3/harem_fastload.py:384-411 | stops exactly at an entry on the meta device; otherwise the invariant holds of all entries |
| Dumping.DumpModel | patches/tp3/harem_fastload.py:343-444 | the outcome in every case: stopped at an entry on the meta device, shards only and the old manifest; refused as another build, the files those of the refused model all the same, each of its shards having been torn on the way; else a manifest that describes the model and keeps the other models |
| Dumping.RefusedDumpTears | patches/tp3/harem_fastload.py:361-427 | a dump refused as another build, under a tag whose model lists a shard it has written, has passed through a state that is not intact |
| Dumping.DumpTwoBuilds | patches/tp3/harem_fastload.py:343-427 | two builds under one tag: the manifest stays that of the first, the shards are those of the second, and a state on the way was not intact |
| Intactness.DescribedIsIntact | patches/tp3/harem_fastload.py:343-444 | what a finished dump leaves is intact: every listed shard whole, each stored tensor in exactly one, each alias at a stored tensor |
| Intactness.FreshTagKeepsIntact | patches/tp3/harem_fastload.py:361-376 | while shards of a tag new to the manifest are written, an intact directory stays intact |
| Intactness.WritingKeepsIntactExactly | patches/tp3/harem_fastload.py:365-367 | starting to write a shard leaves the directory intact exactly when no model of the manifest lists that shard; dumping again under a known tag tears it |
| Dumping.EveryPrefixIntact | patches/tp3/harem_fastload.py:343-444 | however far a dump under a new tag got, every state the directory went through is intact |
| Dumping.PublishedIntact | patches/tp3/harem_fastload.py:431-444 | so is the state with the new manifest |
| Dumping.DumpBoth | patches/tp3/harem_fastload.py:343-444 | from an empty directory, main model and then a differently tagged drafter: every state of the directory is intact and the two are never taken for different builds |
| Restoring.Gates | patches/tp3/harem_fastload.py:498-541 | the first of the gates that fails, in the order of the source, nothing written |
| Restoring.RestoreOne | patches/tp3/harem_fastload.py:570-585 | writes a tensor exactly when shape, type, size and device fit, and then it holds the bytes of the shard; otherwise writes nothing |
| Restoring.RestoreShard | patches/tp3/harem_fastload.py:556-586 | succeeds exactly when the shard is whole and all its tensors fit; in every part of the model that overlaps nothing else the tensors done hold their bytes |
| Restoring.RestoreShards | patches/tp3/harem_fastload.py:543-586 | succeeds exactly when that is so of every listed shard; then every stored tensor of such a part holds its bytes |
| Restoring.RestoreAlias | patches/tp3/harem_fastload.py:587-591 | a name tied again needs no copy; any other alias receives the canonical bytes of the tensor it points at, and spoils no other name of a separate part |
| Restoring.TiedHolds | patches/tp3/harem_fastload.py:588-590 | in a part whose tensors are apart or share everything, equal addresses mean the alias already holds the bytes |
| Restoring.RestoreAliases | patches/tp3/harem_fastload.py:587-591 | it succeeds exactly when every alias is tied or empty or points at a readable tensor of its size, and after it every alias of such a part that fits holds its bytes too |
| Restoring.DrawnMeaning | patches/tp3/harem_fastload.py:606-615 | only names with a recorded hash are drawn, and every one of them when all are asked for or a number as large as theirs |
| Restoring.DrawnExactly | patches/tp3/harem_fastload.py:606-615 | a draw of n takes exactly the smaller of n and the number of hashed names, all distinct, and one at least of every kind that occurs among them when n reaches the number of these kinds |
| Restoring.Verify | patches/tp3/harem_fastload.py:606-632 | the names reported are exactly the drawn ones whose hash is not the recorded one; when all are asked for, or a number as large as that of the hashed names, they are exactly the hashed names whose hash is not |
| Restoring.Restore | patches/tp3/harem_fastload.py:494-603 | a refusal for manifest, rank, identity, tag, model or names leaves memory untouched; past these it comes to the hashes exactly when every listed shard is whole and its tensors fit and every alias can be served; only bytes of the model's tensors ever change; on success every name of a part that overlaps nothing else holds what the directory has for it, whatever the rest does, no drawn name has a wrong hash, and with a thorough check no hashed name has; a mismatch names exactly the drawn names with a wrong hash; and nothing else stops a restore that fits |
| RoundTrip.NothingInTheWay | patches/tp3/harem_fastload.py:494-603 | a dumped model can be restored into any model with the same names, shapes and types: no check fails and every name is reached |
| RoundTrip.NameGoal | patches/tp3/harem_fastload.py:390-412 | for each name the directory holds the canonical bytes of the tensor that stored it |
| RoundTrip.AlikeIsCoherent | patches/tp3/harem_fastload.py:587-591 | a model whose tensors are apart, or share everything where the dumped ones were stored once, can hold what is restored |
| RoundTrip.SameBytesIffSameLayout | patches/tp3/harem_fastload.py:397-401 | address and size are all that alias detection compares: alias and owner hold the same canonical bytes in every memory exactly when their layouts agree |
| RoundTrip.OwnIdentityAccepted | patches/tp3/harem_fastload.py:521-530 | a model is recognized as the one dumped exactly when scrubbing its own saved identity changes nothing |
| RoundTrip.RestoreDumped | patches/tp3/harem_fastload.py:494-603 | a model described on disk is always restored, and every name gets its stored copy's bytes |
| RoundTrip.DumpThenRestore | patches/tp3/harem_fastload.py:343-603 | dump in one boot, restore in the next: always succeeds and every name gets back its stored copy's bytes, which are its own when ties share a layout |
| RoundTrip.DescribedStill | patches/tp3/harem_fastload.py:361-444 | writing or losing shards of one tag leaves what is described under another described |
| RoundTrip.DumpBothThenRestoreBoth | patches/tp3/harem_fastload.py:343-603 | main model and drafter dumped into one directory, both restored from there into tensors apart: both succeed, and both hold their bytes in the end |
| Sampling.PickSample | patches/tp3/harem_fastload.py:455-491 | the loops compute the specified sample |
| Sampling.SampleMeaning | patches/tp3/harem_fastload.py:455-491 | for distinct names exactly min(n, number of names) distinct ones, and one at least of every kind that occurs when n reaches the number of such kinds |
| Sorting.SortedOrderFree | patches/tp3/harem_fastload.py:461 | sorting by a total order forgets the order of its input |
| Sampling.SampleOrderFree | patches/tp3/harem_fastload.py:455-491 | the sample does not depend on the order of the names |
| Sampling.SampleWithin | patches/tp3/harem_fastload.py:455-491 | whatever n is, only given names are drawn |
| Sampling.FewOfEach | patches/tp3/harem_fastload.py:455-491 | with n below the number of kinds that occur, the kinds that come first in the order of serving give their least name each |
| Sampling.NegativeDraw | patches/tp3/harem_fastload.py:455-491 | a negative number, which the slice counts from the end, takes the least name of each kind but for that many of the last kinds |
| Sampling.SpreadEvenly | patches/tp3/harem_fastload.py:475-482 | the names taken of a kind stand evenly in their order, one stride behind the other |
| Sampling.KindIsFirst | patches/tp3/harem_fastload.py:462-472 | the kind of a name is the first, in the order of serving, that the name speaks of |
| Sampling.LeqMeans | patches/tp3/harem_fastload.py:461 | names are in order when one is the beginning of the other or has the smaller letter where they first differ |
| Identity.Diff | patches/tp3/harem_fastload_id.py:109-120 | the differences listed, each with its path and both values, are exactly those of some key at some depth; none exactly when nothing differs |
| Identity.AgreeIffEqualStripped | patches/tp3/harem_fastload_id.py:109-120 | nothing differs exactly when the two maps are equal but for keys holding the text a missing key reads as |
| Identity.AgreeIffEqual | patches/tp3/harem_fastload_id.py:109-120 | without such keys, exactly when they are equal |
| Identity.GatesAgree | patches/tp3/harem_fastload.py:230-259 | the restore's identity check passes exactly when the preflight's does and the engine part agrees |
| Preflight.Check | patches/tp3/preflight-fastload.py:24-76 | out of date (31) exactly for a rank, as it is spelled, or a file identity that does not match, or missing settings; lacking (30) exactly for a missing manifest or a missing or empty shard of any model; looked for in the directory named by the spelled rank |
| Preflight.GatesInOrder | patches/tp3/preflight-fastload.py:48-64 | with the rank spelled as its number, a restore under the same files gets past rank and identity exactly when the preflight check does and the engine part agrees |
| Preflight.OtherSpellingNeverPasses | patches/tp3/preflight-fastload.py:38-51 | a rank spelled otherwise passes in no directory |
| Preflight.LeadingZeroIsNoDecimal | patches/tp3/preflight-fastload.py:38-51 | a leading zero is such a spelling |
| Preflight.OneModelIsEnough | patches/tp3/preflight-fastload.py:66-72 | a missing shard of one model stops the check, while the other model is on disk as before and can be restored |
| Preflight.IntactIsPresent | patches/tp3/preflight-fastload.py:67-72 | in an intact directory every listed shard is there |
| PaddedSharding.ShardMeaning | patches/tp3/patch-vllm-tp3.py:77-113 | a shard holds the checkpoint's elements where it has them and zeros past its end |
| PaddedSharding.PadKeeps | patches/tp3/patch-vllm-tp3.py:77-113 | padding keeps every element, behind the zeros put in front of it |
| PaddedSharding.ShardsConcatenate | patches/tp3/patch-vllm-tp3.py:77-113 | the shards of all ranks concatenate to the checkpoint tensor followed by zeros |
| PaddedSharding.TopRankDecides | patches/tp3/patch-vllm-tp3.py:92-102 | if the top rank's shard is accepted, every rank's is |
| PaddedSharding.RowParallelPreserved | patches/tp3/patch-vllm-tp3.py:77-113 | the row-parallel product summed over the ranks equals the unpadded product |
| HeadPadding.CeilToLeast | patches/tp3/pad-tp3.py:83-84 | the least multiple at or above |
| HeadPadding.RefusalsAgree | patches/tp3/patch-dflash-tp3.py:217-234 | for enlarged counts of the same ratio in whole shares: the gate inside the engine finds the top rank empty exactly when the configuration tool refuses the query heads, exactly when it refuses the key-value heads, and exactly when the loader's helper refuses the last rank's shard of either |
| HeadPadding.GateAcceptsExactly | patches/tp3/patch-dflash-tp3.py:167-234 | the gate accepts exactly the checkpoint's own counts, and counts enlarged in the same ratio that leave every rank a real head of each kind; in both cases a rank's share must be whole and query heads must group evenly |
| HeadPadding.LoaderRefusesExactly | patches/tp3/patch-vllm-tp3.py:92-102 | the helper refuses a rank's shard of the stored heads exactly when it begins past the last of them |
| HeadPadding.CeilToAcceptedExactly | patches/tp3/pad-tp3.py:87-106 | padding to the next multiple is refused exactly when quotient and remainder of stock - 1 sum to less than tp - 1 |
| HeadPadding.CeilToBound | patches/tp3/pad-tp3.py:87-106 | it is never refused above (tp - 1) squared |
| HeadPadding.CeilToBoundTight | patches/tp3/pad-tp3.py:87-106 | at (tp - 1) squared it is refused, so the bound is tight |
| HeadPadding.TargetConfig.PadTarget | patches/tp3/pad-tp3.py:114-165 | accepted exactly when every count fits and the experts divide; then every count is the next multiple and the flat mirror equals the nested count |
| HeadPadding.PaddedAgain | patches/tp3/pad-tp3.py:114-165 | padding a padded count changes nothing and is not refused |
| HeadPadding.DraftConfig.PadDraft | patches/tp3/pad-tp3.py:168-196 | the refusal and the new counts; a refusal leaves the counts alone |
| HeadPadding.FallbackUnreachable | patches/tp3/pad-tp3.py:185-187 | the second try at a larger multiple is never taken |
| HeadPadding.PaddedDraftAccepted | patches/tp3/patch-dflash-tp3.py:167-234 | every pad the tool makes passes the engine's gate, and its key-value count is the least any accepted configuration has |
| HeadPadding.GroupingKept | patches/tp3/patch-dflash-tp3.py:167-234 | on every rank each query head keeps its key-value head |
| PadCheck.RealHeadsSum | patches/tp3/patch-dflash-tp3.py:278-279 | the real heads over all ranks are the checkpoint's |
| PadCheck.FabricatedExactly | patches/tp3/patch-dflash-tp3.py:278-279 | a local head is beyond the real ones exactly when the checkpoint does not have it |
| PadCheck.VerifyPad | patches/tp3/patch-dflash-tp3.py:281-320 | the number of elements read and the findings, block by block with how many elements are not zero; none exactly when the fabricated rows and columns of every layer are zero |
| PadCheck.RowsCounted | patches/tp3/patch-dflash-tp3.py:299-309 | the number reported of a block is how many elements of its padded rows are not zero |
| PadCheck.ColumnsCounted | patches/tp3/patch-dflash-tp3.py:312-320 | and of the output projection how many of its padded columns are not |
| PadCheck.VerifyDraft | patches/tp3/patch-dflash-tp3.py:245-338 | the outcome: refused when the head check never ran, nothing read when nothing was padded, else passed, with the number of elements read, exactly when all fabricated heads are zero, and otherwise the findings |
| PadCheck.AllRanksPassExactly | patches/tp3/patch-dflash-tp3.py:278-320 | all ranks pass exactly when every head that is numbered, across ranks, at or above what the checkpoint has is zero in the fused weight, where query heads stand first, then keys, then values, and in the output projection |
| PadCheck.ReadIsFabricated | patches/tp3/patch-dflash-tp3.py:278-320 | over all ranks each block is read over just the heads the pad has added |
| PadCheck.LoadedLayerPasses | patches/tp3/patch-dflash-tp3.py:281-320 | a layer filled by the padding loader from checkpoint projections passes the check |
| LcmRounding.PaddingSizeLeast | patches/tp3/patch-vllm-tp3.py:218-224 | the new padding is the least positive multiple of the old one that splits over the ranks |
| LcmRounding.VocabularySplits | patches/tp3/patch-vllm-tp3.py:212-224 | a vocabulary rounded up to it splits over the ranks and stays aligned |
| LcmRounding.SharedExpert | patches/tp3/patch-vllm-tp3.py:304-316 | the width splits over the ranks, so the closing assertion cannot fail; unchanged when it already did |
| LcmRounding.OneExpertMeaning | patches/tp3/patch-vllm-tp3.py:308-311 | each expert's width becomes the least multiple of the alignment and the ranks at or above it |
| LcmRounding.RankAlignedExactly | patches/tp3/patch-vllm-tp3.py:298-311 | a rank's share of a padded expert is itself aligned, whatever the width, exactly when 64 and the number of ranks have no common divisor |
| TraceIntervals.GapsOf | bench/prof-gap7.py:170-192 | the loop computes the specified gaps and busy time |
| TraceIntervals.GapsAreComplement | bench/prof-gap7.py:170-192 | the gaps are non-empty, ordered and disjoint, hold a time of the window exactly when no interval does, and with the busy time add up to the window |
| TraceIntervals.BusyIsCoveredLength | bench/prof-gap7.py:170-192 | busy time is the length of the covered part however that is cut |
| TraceIntervals.LengthDetermined | bench/prof-analyze7.py:109-122 | the length of a set of times does not depend on how it is cut into disjoint intervals |
| TraceIntervals.SliceIsEnough | bench/prof-gap7.py:304-306 | the look-back slice gives the same gaps and busy time when nothing that starts before it reaches into the window |
| TraceIntervals.SliceIsExact | bench/prof-gap7.py:304-306 | for start-sorted events the slice is never busier than the whole list, and as busy, with gaps holding the same times, exactly when every event cut off in front is covered in the window by events that are kept |
| TraceIntervals.ShortEventsNeedNoMore | bench/prof-gap7.py:304-306 | so it does when no event is longer than the look-back |
| TraceIntervals.LongEventIsLost | bench/prof-gap7.py:304-306 | one event longer than the look-back, alone in reaching into the window, makes the two differ |
| TraceIntervals.Union | bench/prof-analyze7.py:109-122 | for events in any order, the total length of their union, and the busy time of any window that covers them |
| TraceIntervals.UnionMeans | bench/prof-analyze7.py:109-122 | it equals the busy time on any window that covers the events |
| TraceRegions.Merge | bench/prof-analyze7.py:98-106 | the loop merges one annotation after the other into the last region |
| TraceRegions.MergeKeeps | bench/prof-gap7.py:159-167 | the regions are strictly apart, cover what the annotations cover and carry the name of the first |
| TraceRegions.RegionsAreGroups | bench/prof-analyze7.py:98-106 | there is one region for each group of annotations that reach one another, and it bears the name of the one that opens the group |
| TraceRegions.WidestNameKept | bench/prof-analyze7.py:98-106 | every region bears the name of a longest annotation in it exactly when, in every group, a longest one has the name of the one that opens it |
| TraceRegions.WidestNameLost | bench/prof-analyze7.py:98-106 | of two annotations that overlap, the second longer and of another name, the shorter one's name stays |
| TraceSteps.StepsTile | bench/prof-analyze7.py:151-155 | the steps follow one another without gap or overlap from the first region to the last; each bears its region's name, and its annotated part is the region |
| TraceSteps.StepOfTime | bench/prof-analyze7.py:159-168 | every time of the span is in exactly one step, the one the bisection finds |
| TraceSteps.AssignEvents | bench/prof-analyze7.py:159-168 | each step receives, in order, exactly the kernels that start in it; the rest is added up |
| TraceSteps.DurationsConserved | bench/prof-analyze7.py:159-168 | what the steps received is what starts in the span, so no kernel time is lost or counted twice |
| TraceSteps.Enclosing | bench/prof-gap7.py:196-206 | the latest started operation around the gap among those looked back over, or none |
| TraceSteps.LatestIsInnermost | bench/prof-gap7.py:196-206 | on nested operations that one is inside every other one around the gap |
| TraceAttribution.Mark | bench/prof-gap7.py:317-327 | the two inner marks are the starts of the first qualifying kernels, and lie in order within the step |
| TraceAttribution.PhaseHoldsStart | bench/prof-gap7.py:347-350 | a gap is counted in the one phase in which it starts |
| TraceAttribution.Attribute | bench/prof-gap7.py:303-405 | the loops over steps and gaps compute the tally whose every counter CountersMean, WidthsMean and IdleIsExact describe |
| TraceAttribution.BreakdownsAddUp | bench/prof-gap7.py:303-405 | over a whole run, however long the events are, the breakdowns by phase, by size, and by cause with the small gaps each add up to the idle counter, and the phase widths to the time of the steps |
| TraceAttribution.IdleIsExact | bench/prof-gap7.py:303-307 | the idle counter is never below the idle time all events leave, and is that time exactly when no step loses an event that began before its look-back |
| TraceAttribution.StopsExactly | bench/prof-gap7.py:356 | the analysis stops exactly when some step has a gap longer than every bound of the histogram |
| TraceCounters.CountersMean | bench/prof-gap7.py:303-405 | after a whole run, however long the events are, every counter, by phase, by size, by cause and of the small gaps, holds exactly the time of the gaps it is about, among those its step sees; each of the six causes is a condition on what the trace says of the gap |
| TraceCounters.OneCause | bench/prof-gap7.py:391-403 | the conditions of the six causes exclude one another, one holds of every gap, and it is the one the gap is counted under |
| TraceCounters.WidthsMean | bench/prof-gap7.py:332-335 | each phase's width is the time between its marks, over all steps |
| TraceCounters.SeenIsAll | bench/prof-gap7.py:304-306 | those are all gaps when every event cut off in front had ended |
| TraceCounters.GapCounted | bench/prof-gap7.py:347-405 | one gap changes just the counters it is described by, each by its length |
| TraceAttribution.HistogramStops | bench/prof-gap7.py:356 | for the bounds of the source that is a gap of more than a thousand seconds |
| SchemaNodes.Walk | scripts/strict-proxy.py:56-79 | the in-place walk leaves every value as the specified rewrite of what it was, and every object in it that is reached closed |
| SchemaNodes.Rewrite | scripts/strict-proxy.py:62-79 | a dictionary ends as the closed form of its walked fields, keys in the order they were |
| SchemaNodes.CloseNode | scripts/strict-proxy.py:64-67 | closing sets the two keywords from the property names, before the walk |
| SchemaNodes.WalkKeywords | scripts/strict-proxy.py:70-79 | the walk of one group of keywords rewrites those values and no others |
| SchemaNodes.CloseFirst | scripts/strict-proxy.py:64-79 | closing before the walk or after gives the same, as what it adds is not walked |
| StrictSchema.RewriteCloses | scripts/strict-proxy.py:56-79 | in the rewritten schema every object reached through the four tables, the four single schemas and the four lists of schemas, that declares properties, allows no others and requires exactly their names |
| StrictSchema.RewrittenParts | scripts/strict-proxy.py:56-79 | each of the four tables, the four single schemas and the four lists of schemas of a node is there after the rewrite, key by key, each schema in it rewritten and closed; any other keyword but the two that close the node keeps its value |
| StrictSchema.FixedIffClosed | scripts/strict-proxy.py:56-79 | the rewrite changes nothing exactly on schemas that are closed at all those places |
| StrictSchema.RewriteIdempotent | scripts/strict-proxy.py:56-79 | rewriting twice is rewriting once |
| StrictSchema.RewrittenIndex | scripts/strict-proxy.py:64-67 | what stands at each place of a rewritten node |
| SchemaNarrowing.RewriteNarrows | scripts/strict-proxy.py:56-79 | without "not", "oneOf" and "maxContains", with only declared names required, and with an "if" that decides about a "then" referring only to definitions that the rewrite leaves as they are: whatever the rewritten schema accepts, under the rewritten definitions, the original accepts |
| SchemaDocuments.DefinitionsRewritten | scripts/strict-proxy.py:76-79 | what the references of a rewritten document stand for, read from its own "$defs" and "definitions", is what those of the original stand for, each rewritten |
| SchemaDocuments.DocumentNarrows | scripts/strict-proxy.py:56-79 | so a whole document of the same kind, its references read from itself before and after, is only narrowed |
| SchemaMeaning.Same | scripts/strict-proxy.py:56-79 | a schema that refers only to definitions that are the same accepts the same |
| SchemaWidening.NotWidensExactly | scripts/strict-proxy.py:70-72 | under "not" the rewrite widens exactly where it narrows the schema inside |
| SchemaWidening.IfWidensExactly | scripts/strict-proxy.py:70-79 | "if" is not walked, the definition it refers to is: with "then": false the rewrite widens exactly where it narrows the definition |
| SchemaWidening.OneOfWidensExactly | scripts/strict-proxy.py:73-75 | a choice with "true" under "oneOf" widens exactly where the schema narrows |
| SchemaWidening.MaxContainsWidensExactly | scripts/strict-proxy.py:70-72 | "contains" with "maxContains" 0 widens exactly where the schema narrows |
| SchemaWidening.RequiredMustBeDeclared | scripts/strict-proxy.py:64-67 | with free properties, closing never widens exactly when each required name is declared |
| SchemaWidening.ClosingNarrows | scripts/strict-proxy.py:64-67 | closing does narrow: a node declaring no property refuses every non-empty object |
| AnchoredRewrite.CountedOnce | patches/tp3/patch-vllm-tp3.py:340 | an anchor is counted once exactly when it occurs and every other occurrence begins inside the first |
| AnchoredRewrite.CountIsExact | patches/tp3/patch-vllm-tp3.py:340 | for an anchor none of whose beginnings is also an end, counted once means occurring exactly once |
| AnchoredRewrite.EmptyCounted | patches/tp3/patch-vllm-tp3.py:340 | the empty anchor is counted once in the empty file only |
| AnchoredRewrite.AnyOrder | patches/tp3/patch-vllm-tp3.py:354-355 | one after the other in any order, the edits make the text that replacing every anchor at once makes, when no set of edits made makes another anchor ambiguous |
| AnchoredRewrite.GuardedIsEnough | patches/tp3/patch-vllm-tp3.py:354-355 | that holds whenever an anchor laid over the text at another edit's site disagrees with that text or with the file beside the site |
| AnchoredRewrite.OrderCanMatter | patches/tp3/patch-vllm-tp3.py:354-355 | without it the order can matter |
| AnchoredRewrite.SourceFile.Apply | patches/tp3/patch-vllm-tp3.py:335-359 | the outcome exactly; the file changes only when it is patched, and then by the edits in order |
| AnchoredRewrite.MarkerStays | patches/tp3/patch-dflash-tp3.py:382-408 | when the last anchor is still there at its turn, the marker of its replacement is in the text |
| AnchoredRewrite.LastAnchorStays | patches/tp3/patch-dflash-tp3.py:382-408 | it is, when no set of edits made makes another anchor ambiguous |
| AnchoredRewrite.ApplyTwice | patches/tp3/patch-dflash-tp3.py:382-408 | for every file and every list: the second run finds the file patched exactly when the first left the marker in it, and then changes nothing |
| AnchoredRewrite.PatchedForGood | patches/tp3/patch-dflash-tp3.py:382-408 | a guarded list whose last replacement holds the marker: the patched text is the one with all anchors replaced at once, and holds the marker |
| PatchLists.ApartIsGuarded | patches/tp3/patch-dflash-tp3.py:369-373 | a list whose anchors and replacements begin apart from one another is guarded in every file that keeps the sites where they meet in one letter separate |
| PatchLists.HelperListPatchesForGood | patches/tp3/patch-dflash-tp3.py:369-408 | a list that puts a helper behind an empty row in front of what it finds first is guarded, and patches for good, in every file with no closing parenthesis right in front of that |
| PatchLists.DrafterListIsOne | patches/tp3/patch-dflash-tp3.py:369-373 | the list of the drafter's patch is such a list |
| PatchLists.LoaderListIsOne | patches/tp3/patch-vllm-tp3.py:178-205 | so is the list of the weight loaders |
| Percentiles.PctMonotone | bench/logit-divergence/logit-divergence.py:268-280 | a larger share is never a smaller percentile |
| Percentiles.PctMonotoneInData | bench/logit-divergence/logit-divergence.py:268-280 | larger values never make a smaller percentile |
| Percentiles.PctBetween | bench/logit-divergence/logit-divergence.py:268-280 | it lies between the values on either side of its position |
| Percentiles.PctShares | bench/logit-divergence/logit-divergence.py:268-280 | it bounds how many values lie below and above it |
| Percentiles.PctInterpolates | bench/logit-divergence/logit-divergence.py:268-280 | the percentile is the value at the share's position, or on the straight line between the two values around it |
| Percentiles.DistOrdered | bench/logit-divergence/logit-divergence.py:283-290 | median at most p95 at most the maximum, which is the greatest value; the median has half of the gaps on either side, p95 nineteen in twenty below and one above |
| Percentiles.DistOrderFree | bench/logit-divergence/logit-divergence.py:283-290 | the summary does not depend on the order of the values |
| Divergence.ComparePrompt | bench/logit-divergence/logit-divergence.py:694-740 | the row: where the two part, the differences before that, those for all common top tokens and the greatest of them, the changes of the top sets |
| Divergence.PartingIsCommonPrefix | bench/logit-divergence/logit-divergence.py:698-708 | the divergence is the length of the common beginning |
| Divergence.SameToken | bench/logit-divergence/logit-divergence.py:686-691 | two positions are the same token when both have bytes and these are equal, or neither has any and their texts are |
| Divergence.RowSymmetric | bench/logit-divergence/logit-divergence.py:694-740 | comparing the other way round gives the same row |
| PairReports.ReportPair | bench/logit-divergence/logit-divergence.py:743-769 | fails exactly when some prompt is missing or differs, and names one that does; else pools the differences of all rows and those of their top tokens, counts the rows that part and finds the earliest |
| PairReports.ReportSymmetric | bench/logit-divergence/logit-divergence.py:743-769 | both pooled summaries, count and earliest divergence are the same the other way round, however each run orders its prompts |
| PairReports.Outliers | bench/logit-divergence/logit-divergence.py:923-955 | exactly the rows beyond k times the pooled p95 of all arms, or parting earlier than any pair of one arm |
| PairReports.OutliersShrink | bench/logit-divergence/logit-divergence.py:945-953 | a larger factor never adds an outlier |
| KvZeroing.Build | bench/zerokv_bench.py:45-59 | the segments of all layers in order; refused exactly when a page does not split into its ratio |
| KvZeroing.SplitsMeans | bench/zerokv_bench.py:50-51 | a page splits into its ratio exactly when it is so many kernel pages of one size |
| KvZeroing.SegmentsCover | bench/zerokv_bench.py:45-59 | the segments clear, in the first n blocks, exactly the words of those blocks |
| KvZeroing.AllBlocksArePool | bench/zerokv_bench.py:45-59 | all blocks together are the pool |
| KvZeroing.WordsOnce | bench/zerokv_bench.py:45-59 | no two of segment, block and word meet at one word of the pool |
| KvZeroing.RatiosDoNotMatter | bench/zerokv_bench.py:45-59 | what is cleared does not depend on the ratios |
| KvLaunches.PlanOne | bench/zerokv_bench.py:62-73 | one launch as wide as the longest page clears the words of all segments; there is none without segments |
| KvLaunches.BlockSizeMeans | bench/zerokv_bench.py:67 | the threads of a block are the least power of two no smaller than the page, the tenth at most; two for an empty page |
| KvLaunches.ChunksMeaning | bench/zerokv_bench.py:66-68 | one thread block does a page of up to 1024 words; a longer one takes one for every 1024 words |
| KvLaunches.PlanGrouped | bench/zerokv_bench.py:84-102 | one launch for each page size, in the order the sizes are first met, with its segments in their order |
| KvLaunches.BucketsInOrder | bench/zerokv_bench.py:86-89 | the dictionary of buckets holds for each page size the segments of that size, in order |
| KvLaunches.GroupedClearsTheSame | bench/zerokv_bench.py:84-102 | the grouped launches clear the words the single launch clears |
| KvLaunches.GroupedTakesNoMore | bench/zerokv_bench.py:84-109 | they take no more thread blocks |
| KvLaunches.EnoughChunks | bench/zerokv_bench.py:66-73 | thread blocks enough for the longest page clear every page and nothing else |

## Left out

- PathClassifier.Corpus.Classify: the fuzzy matcher is a parameter, any answer it could give; the table from real paths
  to modules is not modelled.
- Repetition.HasDegenerateRepetition: a negative run length, which slices from the end in the source, is not modelled;
  what counts as a blank is a parameter.
- Restoring.RestoreOne: a manifest whose recorded byte count contradicts the shape it records is refused here; the
  source raises in the copy, but repeats a single byte over a longer destination and skips an empty one. No dump writes
  such a manifest.
- Restoring.Restore: the two read modes are one, and an unknown one is not modelled; the order of the manifest's names
  is a parameter; a manifest that is not valid JSON is not modelled for a restore, and counts as none for a dump, as in
  the source.
- RoundTrip.DumpThenRestore: hashes and the scrubbing of addresses are arbitrary functions; nothing is claimed about
  collisions.
- Dumping.DumpModel: a file is partial, then whole; flushing to the device, page-cache advice and the time and host
  stamps in the manifest are not modelled.
- Identity.Diff: how the identity of the files is gathered is not modelled; the keys come in any order, so the order of
  the listed differences is open.
- Preflight.Check: the total size it prints is not modelled; file sizes are a parameter.
- Sampling.PickSample: lower-casing a name is a parameter.
- PaddedSharding.RowParallelPreserved: elements are reals, so rounding in the sums is not modelled; scalars, which the
  source returns as they are, are tensors without dimensions.
- HeadPadding.TargetConfig.PadTarget: needs at least two ranks; the messages about partial ranks and the expert width
  are not modelled.
- HeadPadding.PaddedDraftAccepted: reading the checkpoint's head counts from its files is not modelled; the counts are
  parameters.
- TraceAttribution.Attribute: what the trace says about a gap (blocking calls, launches, the next kernel, the covering
  operation) is a parameter; counts per class, medians and the lag of launches are not modelled.
- TraceSteps.Enclosing: returns what the bounded walk back finds; that it misses an operation further back than the
  bound is part of its contract.
- SchemaNarrowing.RewriteNarrows: references are followed to any given depth; every definition they can name is one the
  walk reaches; keywords without schemas inside are one arbitrary predicate; nothing is claimed of schemas with the
  keywords about unevaluated members, which read what other keywords have evaluated, with dynamic references, or with
  the "dependencies" of earlier drafts.
- SchemaNodes.Walk: lists are values, as the source changes only dictionaries; the dictionaries form a tree, as a
  parser builds them.
- AnchoredRewrite.SourceFile.Apply: only one file is modelled; a run over several files is atomic for each alone.
- KvLaunches.EnoughChunks: the kernel is the stated contract; launches over blocks other than the first n are not
  modelled.
- Marking tools strict in a request: the tools of a request do not depend on one another, and each one's schema goes
  through the walk that is modelled.
- PathClassifier.SlipsNearRealExactly: needs that no decoy is a real path cut short in front by one to three letters;
  without it only SlipsNearRealNeed is claimed, as real paths that surround a decoy letter by letter can catch its
  slips.
- Restoring.Restore: what an alias receives that points at another alias, which no dump writes, is not stated.
- PatchLists.DrafterListIsOne: of the long texts of the list only the beginnings, the last letters and what they do not
  hold are used; that they are so is read off the list.
- PatchLists.LoaderListIsOne: the same.
- Traces, streams and responses as text: the models start from parsed events.
- Clients, proxies, containers, charts, prompt sets and measured numbers.
