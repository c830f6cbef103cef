# Verified models of NNStreamer's stream handling

A Dafny model of the parts of NNStreamer whose correctness is not visible from one function
body, with machine-checked theorems about them. `dafny verify dfyconfig.toml` checks the whole
project.

| module | what it models | main results |
|---|---|---|
| `TensorBuffer`, `BufferLimits` | packing more than sixteen tensors into a GstBuffer | a packed buffer behaves like a plain list, if and only if recorded and real sizes agree; buffers that do not |
| `BufferSplit` | re-cutting a buffer by configuration or by headers | splitting undoes flattening, is idempotent and loses no byte |
| `TimeSync`, `PadBuffers`, `PadWitnesses` | mux and merge synchronisation as a step machine, down to the output buffer | nearest buffers and an exact count of failures over every interleaving of a round; exactly when the output reads back |
| `DataRepoSink`, `DataRepoSource`, `FlexibleRepo`, `StaticRepo` | repository writer, random access reader, epoch replay | from buffer to buffer: round trips for flexible and static samples, exactly up to sixteen tensors; exactly which tables and selections read back; replay as permutations |
| `Nms` | non-maximum suppression in place | refinement of the simple selection, separation, a reason for every dropped box |
| `Tracker`, `DistanceTable` | centroid tracker | greedy matching, distinct and never reused identities, exact condition for a complete distance table, whole frames nearest first |
| `PoseLine` | Bresenham line of the pose decoder | termination after max(dx, dy) steps, closed form, half a pixel, clipping |
| `Framerate`, `TensorConfig` | framerate comparison, configuration equality | sign of the true difference, unreachable fall-through, equivalence relation, equal sizes |
| `DimensionString`, `TensorMeta` | dimension strings, tensor headers | round trips |
| `ZipTail` | archive appended to a model file | prefix independence, exact condition for finding the end record |
| `MqttFrame` | MQTT message frame and timestamps | frame round trip, absolute time preserved or cleared |

`Bytes`, `Integers`, `Options` and `Sorting` hold byte strings with little-endian fields, integer
facts, the optional value and the sort.

## Modelling decisions

- Memory blocks are byte sequences; structs written through pointers (`GstTensorExtraInfo`,
  `GstTensorMetaInfo`, `GstMQTTMessageHdr`) are laid out byte by byte, little endian with 64-bit
  pointers and sizes. Freshly allocated memory has arbitrary content.
- `gsize` sums and products that could overflow are reduced modulo 2^64 where the source computes
  them. Timestamps used in clock differences lie below 2^63, where the differences are exact.
- A window (`gst_memory_share`) outside its block counts as a failure.
- Headers are parsed at a data pointer without a look at the size of the block. Up to 88 bytes behind
  a short block are then read; those bytes are the parameter `past`, and every result holds for all
  of its values. A packed tensor is a window of its memory, so behind its end the memory goes on.
- The number of bytes delivered by `read`, interruptions, random swaps, the order of equal elements
  after a sort and uninitialised memory are nondeterministic choices; the results hold for all of them.
- Pads of the synchroniser receive buffers in timestamp order. The current time is fixed for a round
  by the `need_set_time` flag of the elements.
- Boxes enter the tracker without identity, as the decoders create them.
- The extra-tensor table of the packed header is not bounds-checked by the source. Writing past it is
  undefined in C; the model then allows any content. Reading past it is not modelled.
- The count of a pad's buffer is taken before the buffer is matched with its configuration, and a
  failed assertion of the source is the outcome `Aborted`. Readers and synchroniser end in buffers
  built by `Buffer.AppendAll`; `StandsFor` says what such a buffer promises.
- With the property tensors-sequence set, the caps query parses the configuration of the selected
  tensors on top of the tables of the file; the reads still use the old numbers.
- A file has fewer than 2^63 bytes, so that offsets into it and sums of tensor sizes do not overflow.

## Properties that do not hold, and exactly when they do

- A packed tensor does not read back when its recorded description computes to another size than its
  block has; `ReadsBackIff` is the exact condition. It fails for every tensor with a header behind the
  sixteenth (`HeaderTailIsCutShort`, with the buffer of `CutShortWitness`). The comment on the function
  promises no such exception.
- The count is off by what a sixteenth block that looks packed claims (`Buffer.GetCount`,
  with the buffer of `PosingWitness`).
- The output of the synchroniser does not read back if some pad is flexible and there are more than
  sixteen tensors (`OutputReadsBackIff`, `SeventeenPadsWitness`). A buffer that arrives in one memory
  loses all tensors but the first (`OnlyFirstOfFlattened`, `FlattenedWitness`), or stops the process
  (`FlattenedStaticStops`).
- The static repository misreads samples of more than sixteen tensors, because the writer stores the
  packed header and the table of the reader does not know it (`StaticRoundTripIff`, `SeventeenMisread`).
- A tensors-sequence reads the wrong bytes unless sizes, offsets and the sample size agree at the
  selected numbers (`SelectionReadsIff`). The example in the comment of
  `gst_data_repo_src_read_tensors` is misread from its second sample on (`ExampleSelectionMisread`).
- A recorded flexible sample of more than sixteen tensors never comes back whole
  (`FlexibleSurvivesIff`). Seventeen tensors are always recorded (`SeventeenRecorded`); short ones make
  the reader depend on the memory behind its blocks (`ShortTensorWitness`), long ones are delivered
  without their ends (`LongTensorWitness`).
- The distance table of the tracker lists every pair only if there is one centroid or as many
  centroids as boxes (`TableCompleteIff`, `IncompleteWitness`). With an
  incomplete table a cleared entry can make the first centroid take the first box, however far away
  (`StrayMatch`).
- The statement of `_compare_rate` marked "should not happen" is reached for equal fractions whose
  denominators have different signs (`CompareRate`), and the sign is wrong for different ones
  (`ExactIff`, `SignWitness`); valid configurations have positive denominators.
- Memories of 2 GiB and more do not survive the MQTT frame (`FrameRoundTrip`, `LargeMemoryWitness`).
- An archive is missed when its end signature occurs again behind it (`EndFoundIff`, `EndMissedWitness`).

## Model

| member | source | states |
|---|---|---|
| `TensorBuffer.Buffer.AppendMemory` | gst/nnstreamer/nnstreamer_plugin_api_impl.c:1666-1807 | any accepted block joins the represented list at its end, in a memory of its own or in the packed last memory, whose header, count, slot and payload stay those of the whole list; a refusal changes nothing and happens only for a block with neither header nor valid description, or when no allocation is possible |
| `TensorBuffer.Pack` | gst/nnstreamer/nnstreamer_plugin_api_impl.c:1728-1787 | from arbitrary uninitialised memory: as long as the table has a free slot, the new last memory keeps every earlier slot, the reserved size and all payload bytes, raises the count by one and fills exactly the next slot; past the table only the size is promised |
| `TensorBuffer.InitExtra` | gst/nnstreamer/nnstreamer_plugin_api_impl.c:77-93 | a fresh header in uninitialised memory reads back magic, version, zero extra tensors, the reserved size and an empty description in every slot, and does not touch the bytes behind it |
| `TensorBuffer.SlotLayout` | gst/nnstreamer/nnstreamer_plugin_api_impl.c:1767-1780 | where type and dimension of a packed tensor lie: slots of 80 bytes behind 24, 19224 bytes in all |
| `TensorBuffer.RecordedDescription` | gst/nnstreamer/nnstreamer_plugin_api_impl.c:1688-1700 | a block with a header is accepted, a short one only with a valid description; the description in a flexible or sparse header is recorded whatever description is given, otherwise the given one |
| `TensorBuffer.Buffer.AppendAll` | gst/nnstreamer/nnstreamer_plugin_api_impl.c:487-510 | a run of appends stops at the first refusal and succeeds whenever every block is accepted and the packed part can be allocated; then the buffer stands for the list: the count is the number of appends and all indices read back if and only if the packed sizes agree |
| `TensorBuffer.Buffer.GetCount` | gst/nnstreamer/nnstreamer_plugin_api_impl.c:1813-1850 | the number of tensors appended so far, across the MEMORY_MAX border, plus exactly what a sixteenth block posing as packed claims |
| `TensorBuffer.Buffer.GetNthMemory` | gst/nnstreamer/nnstreamer_plugin_api_impl.c:1586-1655 | the i-th appended bytes for every index, nothing beyond the end |
| `TensorBuffer.ReadsBackIff` | gst/nnstreamer/nnstreamer_plugin_api_impl.c:1585-1850 | refinement of a plain list: all indices read back if and only if every packed tensor has the size computed from its recorded description; the count is always right |
| `BufferLimits.HeaderTailIsCutShort` | gst/nnstreamer/nnstreamer_plugin_api_impl.c:1767-1780 | the failing family: a tensor with a header in front of its data, flexible or static format, comes back from the packed part short by the size of the header |
| `BufferLimits.CutShortWitness` | gst/nnstreamer/nnstreamer_plugin_api_impl.c:1767-1780 | a buffer of seventeen one-byte flexible tensors that does not read back |
| `BufferLimits.MemoriesRepresent` | gst/nnstreamer/nnstreamer_plugin_api_impl.c:1666-1807 | every list of up to 256 tensors that can be allocated has a packed buffer that stands for it |
| `BufferLimits.PosingWitness` | gst/nnstreamer/nnstreamer_plugin_api_impl.c:1838-1845 | sixteen plain memories that count as seventeen |
| `TensorBuffer.ExtraOffsetIsTotal` | gst/nnstreamer/nnstreamer_plugin_api_impl.c:1640-1645 | the 64-bit running offset equals header size plus the true sizes of all packed tensors before the k-th |
| `TensorBuffer.ReservedReadsBack` | gst/nnstreamer/nnstreamer_plugin_api_impl.c:1634-1638 | the reserved size recovers tensor MEMORY_MAX |
| `TensorBuffer.PackedReadsBack` | gst/nnstreamer/nnstreamer_plugin_api_impl.c:1640-1650 | the window computed for a packed tensor holds exactly its bytes |
| `BufferSplit.FromConfig` | gst/nnstreamer/nnstreamer_plugin_api_impl.c:535-652 | the three loops together compute the declarative split: pass-through, static sizes or header scan, then windows inside the data or failure |
| `BufferSplit.ComputeStaticSizes` | gst/nnstreamer/nnstreamer_plugin_api_impl.c:560-576 | one size per tensor, with the sixteenth covering the extra header and all further tensors |
| `BufferSplit.ComputeScanSizes` | gst/nnstreamer/nnstreamer_plugin_api_impl.c:589-608 | the sizes announced by consecutive headers, whatever bytes lie behind the block |
| `BufferSplit.ComputeCut` | gst/nnstreamer/nnstreamer_plugin_api_impl.c:618-632 | consecutive windows of the given sizes, or failure as soon as one does not fit |
| `BufferSplit.ResplitUndoesFlatten` | gst/nnstreamer/nnstreamer_plugin_api_impl.c:556-632 | bytes of a buffer of static tensors, arriving in any other blocks, are cut back into the same memories, packed tail included |
| `BufferSplit.SplitIdempotent` | gst/nnstreamer/nnstreamer_plugin_api_impl.c:535-652 | for every buffer and configuration, splitting a result again changes nothing |
| `BufferSplit.FlexibleSplitInverts` | gst/nnstreamer/nnstreamer_plugin_api_impl.c:577-632 | up to sixteen framed tensors laid end to end (the sixteenth may hold anything) are recovered exactly |
| `BufferSplit.FlexibleSplitConserves` | gst/nnstreamer/nnstreamer_plugin_api_impl.c:577-632 | for arbitrary bytes a flexible split yields at most MEMORY_MAX memories and loses or adds no byte |
| `BufferSplit.GarbageScan` | gst/nnstreamer/nnstreamer_plugin_api_impl.c:589-608 | data without a recognised header counts as empty pieces until the sixteenth takes everything |
| `BufferSplit.AnnouncedPiece` | gst/nnstreamer/nnstreamer_plugin_api_util_impl.c:1443-1490 | a recognised header announces its data and, in the known version, its own 128 bytes |
| `BufferSplit.InvalidConfigFails` | gst/nnstreamer/nnstreamer_plugin_api_impl.c:547-550 | an invalid configuration splits nothing |
| `BufferSplit.AppendedHeaderFrames` | gst/nnstreamer/nnstreamer_plugin_api_impl.c:1544-1577 | a header appended in front of the announced amount of data makes a block the scan can frame |
| `BufferSplit.StaticSizesAreLengths` | gst/nnstreamer/nnstreamer_plugin_api_impl.c:560-576 | the sizes computed from the configuration are the lengths of the memories of the packed buffer |
| `TensorMeta.HeaderRoundTrip` | gst/nnstreamer/nnstreamer_plugin_api_util_impl.c:1496-1544 | decoding an encoded header gives back every field, whatever data follows |
| `TensorMeta.ParseHeaderLocal` | gst/nnstreamer/nnstreamer_plugin_api_util_impl.c:1518-1544 | parsing depends on the first 88 bytes only |
| `TensorMeta.HeaderLayout` | gst/nnstreamer/nnstreamer_plugin_api_util_impl.c:1518-1541 | where each field lies in the encoded header |
| `TensorConfig.HeaderFields` | gst/nnstreamer/nnstreamer_plugin_api_util_impl.c:1397-1436 | replacing one field of a valid header keeps it valid exactly for the values of its kind |
| `TensorConfig.VersionBits` | gst/nnstreamer/nnstreamer_plugin_api_util_impl.c:1335-1350 | the version tests ask for the bits of 0xDE000000 and bit 12 |
| `TensorConfig.AnnouncedData` | gst/nnstreamer/nnstreamer_plugin_api_util_impl.c:1467-1490 | a header announces the size of its tensor, or for a sparse one a value and a 4-byte index per nonzero element |
| `TensorMeta.FromInfo` | gst/nnstreamer/nnstreamer_plugin_api_util_impl.c:260-277 | a valid description becomes a valid meta that converts back to it |
| `TensorMeta.FreshMeta` | gst/nnstreamer/nnstreamer_plugin_api_util_impl.c:1357-1370 | the header made of a description: version 1.0, static format, media type tensor |
| `TensorMeta.Rank` | gst/nnstreamer/nnstreamer_plugin_api_util_impl.c:989-1000 | everything before the rank is positive and the entry at the rank is zero |
| `TensorConfig.DimensionIsEqual` | gst/nnstreamer/nnstreamer_plugin_api_util_impl.c:963-981 | true exactly for valid dimensions that agree everywhere except between absent and 1 |
| `TensorConfig.InfoIsEqual` | gst/nnstreamer/nnstreamer_plugin_api_util_impl.c:197-219 | true exactly for valid infos of equal type and shape |
| `TensorConfig.ConfigIsEqual` | gst/nnstreamer/nnstreamer_plugin_api_util_impl.c:872-889 | true exactly for valid configurations with the same rational framerate, format and, if static, tensor list |
| `TensorConfig.ValidConfigs` | gst/nnstreamer/nnstreamer_plugin_api_util_impl.c:403-430 | a valid configuration has a framerate that is not negative, a known format and, if static, 1 to 256 valid tensors |
| `TensorConfig.SameStreamEquivalence` | gst/nnstreamer/nnstreamer_plugin_api_util_impl.c:872-889 | equality of valid configurations is reflexive, symmetric and transitive |
| `TensorConfig.EqualStreamsSameSizes` | gst/nnstreamer/nnstreamer_plugin_api_util_impl.c:156-166 | equal static configurations give every tensor the same byte size, in 64-bit arithmetic |
| `TensorConfig.SameShapeSameCount` | gst/nnstreamer/nnstreamer_plugin_api_util_impl.c:1177-1190 | trailing ones do not change the element count |
| `TensorConfig.TrailingOnes` | gst/nnstreamer/nnstreamer_plugin_api_util_impl.c:963-981 | ones behind the last dimension make no difference |
| `TensorConfig.DifferencesMatter` | gst/nnstreamer/nnstreamer_plugin_api_util_impl.c:872-889 | a different format, number of tensors, element type or other entry does |
| `TensorConfig.GetElementCount` | gst/nnstreamer/nnstreamer_plugin_api_util_impl.c:1177-1190 | the wrapping loop computes the product up to the rank, zero for rank zero |
| `TensorConfig.CountAdditive` | gst/nnstreamer/nnstreamer_plugin_api_util_impl.c:1177-1190 | the element count is additive along every axis below the rank, modulo 2^64; with a single element counting one this leaves only the number of elements |
| `TensorConfig.OnesCountOne` | gst/nnstreamer/nnstreamer_plugin_api_util_impl.c:1177-1190 | a dimension of ones counts one element |
| `TensorConfig.SizeAdditive` | gst/nnstreamer/nnstreamer_plugin_api_util_impl.c:156-166 | the size in bytes is additive along every axis, modulo 2^64 |
| `TensorConfig.OneElementSize` | gst/nnstreamer/nnstreamer_plugin_api_util_impl.c:156-166 | a single element takes the bytes of its type |
| `Framerate.Gcd` | gst/nnstreamer/nnstreamer_plugin_api_util_impl.c:67-77 | the loop with truncating remainder computes the gcd function, which divides both numbers |
| `Framerate.GcdDivides` | gst/nnstreamer/nnstreamer_plugin_api_util_impl.c:67-77 | the result is a common divisor, for numbers of any sign |
| `Framerate.GcdGreatest` | gst/nnstreamer/nnstreamer_plugin_api_util_impl.c:67-77 | every common divisor divides it |
| `Framerate.CompareRate` | gst/nnstreamer/nnstreamer_plugin_api_util_impl.c:83-114 | for all nonzero denominators the result is the sign of the cross difference; the statement marked unreachable is reached exactly for equal fractions with denominators of different sign, so never for valid rates |
| `Framerate.ReducedFormsUnique` | gst/nnstreamer/nnstreamer_plugin_api_util_impl.c:90-101 | equal reduced fractions have equal terms up to the sign of the denominator |
| `Framerate.ExactIff` | gst/nnstreamer/nnstreamer_plugin_api_util_impl.c:83-114 | the result has the sign of the true difference of the fractions if and only if the denominators agree in sign or the fractions are equal |
| `Framerate.SignWitness` | gst/nnstreamer/nnstreamer_plugin_api_util_impl.c:83-114 | 1/1 and -1/-1 reach the statement marked unreachable, and 1/1 compares as less than 1/-1 |
| `DimensionString.GetRankDimensionString` | gst/nnstreamer/nnstreamer_plugin_api_util_impl.c:1098-1124 | the loop prints the dimensions up to the rank limit, joined by colons |
| `DimensionString.ParseDimension` | gst/nnstreamer/nnstreamer_plugin_api_util_impl.c:1031-1065 | leading non-blank tokens become dimensions, the rest is zero, and the rank is their number |
| `DimensionString.GetDimensionsString` | gst/nnstreamer/nnstreamer_plugin_api_util_impl.c:673-702 | the dimensions of all tensors joined by commas |
| `DimensionString.ParseDimensions` | gst/nnstreamer/nnstreamer_plugin_api_util_impl.c:529-560 | one parsed dimension per piece, at most SIZE_LIMIT pieces |
| `DimensionString.DimensionRoundTrip` | gst/nnstreamer/nnstreamer_plugin_api_util_impl.c:1031-1124 | printing with any rank limit and parsing back gives the dimensions up to the limit, nothing behind them, and their number; without limit every valid dimension and its rank |
| `DimensionString.LongDimension` | gst/nnstreamer/nnstreamer_plugin_api_util_impl.c:1048-1061 | of more than sixteen numbers the first sixteen are taken |
| `DimensionString.NothingToParse` | gst/nnstreamer/nnstreamer_plugin_api_util_impl.c:1045-1054 | a blank string has no dimension, an empty one no tensors |
| `DimensionString.StreamRoundTrip` | gst/nnstreamer/nnstreamer_plugin_api_util_impl.c:529-702 | the same for whole streams of any length, of which the first 256 tensors are taken, with commas or full stops between them |
| `DimensionString.StrToUllOfDecimal` | gst/nnstreamer/nnstreamer_plugin_api_util_impl.c:1056-1058 | decimal conversion for every number: exact or the largest value, whatever follows the digits, with either sign |
| `DimensionString.DecimalDigits` | gst/nnstreamer/nnstreamer_plugin_api_util_impl.c:1116-1116 | decimal notation, digit by digit |
| `DimensionString.TokenOfDecimal` | gst/nnstreamer/nnstreamer_plugin_api_util_impl.c:1051-1058 | a token with blanks around it is its number, cast to 32 bits |
| `DimensionString.StripRemoves` | gst/nnstreamer/nnstreamer_plugin_api_util_impl.c:1045-1052 | stripping removes exactly the whitespace around a word |
| `DimensionString.SplitJoin` | gst/nnstreamer/nnstreamer_plugin_api_util_impl.c:1048-1049 | splitting undoes joining for pieces without separator |
| `TimeSync.Mux.GetCurrentTime` | gst/nnstreamer/nnstreamer_plugin_api_impl.c:203-257 | slowest mode: the latest queue head or the previous time; base pad mode: the head of the base pad; end of stream exactly when a queue is empty |
| `TimeSync.Mux.CollectBuffer` | gst/nnstreamer/elements/gsttensor_mux.c:368-387 | one attempt of a round with fixed time: a failure pops exactly one older buffer, from the failing pad, and leaves later pads alone; an output, after exactly as many failures as older buffers, is stamped with the current time and is a buffer standing for the tensors of all pads in pad order; in slowest mode every pad contributes a nearest buffer, in base pad mode the base pad one of the current time |
| `TimeSync.Mux.TryOnce` | gst/nnstreamer/nnstreamer_plugin_api_impl.c:332-523 | the same for one call with the time already set: a retry comes only if no assertion stopped at an earlier pad, an abort only if one did, a refusal only if the tensors cannot be appended |
| `TimeSync.EmittedTensors` | gst/nnstreamer/nnstreamer_plugin_api_impl.c:456-516 | an output in terms of what the pads carry: as many tensors as all pads together, each read at its place in pad order with its own bytes, or behind a header that describes it, if and only if no pad is flexible or there are at most sixteen |
| `TimeSync.Mux.RunAttempt` | gst/nnstreamer/nnstreamer_plugin_api_impl.c:385-432 | the pad loop updates pads in order up to the first stale head, and which one that is |
| `TimeSync.Mux.BeginRound` | gst/nnstreamer/elements/gsttensor_mux.c:371-382 | a round fixes its time once; slowest mode never goes back in time |
| `TimeSync.Mux.Gather` | gst/nnstreamer/nnstreamer_plugin_api_impl.c:456-516 | collects the tensors of the kept buffers in pad order, adds headers to static ones in a flexible stream and appends them one by one: the output stands for exactly this list, and it is refused only if a tensor is missing, not accepted or does not fit |
| `PadBuffers.CarriedIsTaken` | gst/nnstreamer/nnstreamer_plugin_api_impl.c:457-478 | from a buffer that stands for a list, matched with its configuration, exactly the tensors of the list are taken, packed ones included |
| `PadBuffers.CarriedIsCollected` | gst/nnstreamer/nnstreamer_plugin_api_impl.c:383-485 | over all pads nothing is lost or reordered |
| `PadBuffers.OutputReadsBackIff` | gst/nnstreamer/nnstreamer_plugin_api_impl.c:456-516 | for pads with well-formed buffers nothing stands in the way of the output and its count is right; every tensor of every pad is read from it at its place in pad order, with its own bytes or behind a header that describes it, if and only if no pad is flexible or there are at most sixteen tensors |
| `PadBuffers.OutgoingKeepsBytes` | gst/nnstreamer/nnstreamer_plugin_api_impl.c:491-503 | every well-formed tensor goes out with its own bytes, a static one in a flexible stream behind a header |
| `PadBuffers.StaticGoesOutSame` | gst/nnstreamer/nnstreamer_plugin_api_impl.c:487-510 | without flexible pads every tensor is appended with exactly its own bytes |
| `PadBuffers.OutgoingRefuses` | gst/nnstreamer/nnstreamer_plugin_api_impl.c:491-509 | a missing memory, or a static tensor without a valid description in a flexible stream, goes nowhere |
| `PadBuffers.CarriedAt` | gst/nnstreamer/nnstreamer_plugin_api_impl.c:472-480 | tensor j of pad i comes behind all tensors of the pads before and the ones before it on its pad |
| `PadBuffers.PackedIsCut` | gst/nnstreamer/nnstreamer_plugin_api_impl.c:487-510 | how much of a packed tensor of a flexible output is left: all but the length of its header, or nothing |
| `PadWitnesses.ManyPadsDoNotReadBack` | gst/nnstreamer/nnstreamer_plugin_api_impl.c:487-510 | the failing family: more than sixteen flexible pads with a tensor each |
| `PadWitnesses.SeventeenPadsWitness` | gst/nnstreamer/nnstreamer_plugin_api_impl.c:487-510 | seventeen pads with one byte each: an output buffer that stands for them and does not read back |
| `PadWitnesses.StaticPadWitness` | gst/nnstreamer/nnstreamer_plugin_api_impl.c:456-516 | seventeen packed static tensors come in and seventeen go out whole |
| `PadBuffers.OnlyFirstOfFlattened` | gst/nnstreamer/nnstreamer_plugin_api_impl.c:459-478 | of a flexible buffer that arrives in one memory only the first tensor is collected, because the tensors are counted before the buffer is cut |
| `PadWitnesses.FlattenedWitness` | gst/nnstreamer/nnstreamer_plugin_api_impl.c:459-478 | two one-byte tensors in one memory, of which the second is lost |
| `PadBuffers.FlattenedStaticStops` | gst/nnstreamer/nnstreamer_plugin_api_impl.c:459-466 | a static buffer of several tensors that arrives in one memory would be cut back into its memories, but fails the assertion on the number of tensors |
| `TimeSync.Mux.Arrive` | gst/nnstreamer/nnstreamer_plugin_api_impl.c:286-324 | an arrival extends one queue and keeps the round invariant |
| `TimeSync.RoundFindsNearest` | gst/nnstreamer/nnstreamer_plugin_api_impl.c:286-432 | for every interleaving of arrivals and failed attempts: at success each pad contributes a buffer nearest to the current time among all it held or queued since the round began, and the failures number exactly the older buffers met |
| `TimeSync.RoundKeepsInv` | gst/nnstreamer/nnstreamer_plugin_api_impl.c:286-324 | over a whole round, failures plus remaining older buffers equal older buffers at the start plus older arrivals |
| `TimeSync.StaleAfterAttempt` | gst/nnstreamer/nnstreamer_plugin_api_impl.c:297-304 | a failed attempt removes exactly one older buffer, a successful one finds none |
| `TimeSync.AttemptShape` | gst/nnstreamer/nnstreamer_plugin_api_impl.c:385-432 | which pads an attempt touches, and how |
| `TimeSync.BasePadRound` | gst/nnstreamer/nnstreamer_plugin_api_impl.c:286-432 | for every interleaving in base pad mode: at success each pad contributes the buffer it has reached, at most the largest base distance ahead unless it is the first of the round, and older than the current time only if the next one is missing or beyond the base distance |
| `TimeSync.AnchoredStays` | gst/nnstreamer/nnstreamer_plugin_api_impl.c:360-379 | the base distance is always short of the next buffer of the base pad, so the base pad contributes a buffer of exactly the current time, however often the round is retried |
| `TimeSync.BaseTimeMeaning` | gst/nnstreamer/nnstreamer_plugin_api_impl.c:360-379 | the base distance is the largest one within the duration and short of the gap on the base pad |
| `PadBuffers.ConvertedIsFramed` | gst/nnstreamer/nnstreamer_plugin_api_impl.c:491-501 | a static tensor entering a flexible stream gets a header that describes it, in front of its unchanged bytes |
| `TimeSync.UpdateFindsNearest` | gst/nnstreamer/nnstreamer_plugin_api_impl.c:286-324 | an update that does not fail leaves the pad with a nearest buffer of its whole history; an old buffer is kept only if strictly nearer than the head |
| `TimeSync.TracksUpdate` | gst/nnstreamer/nnstreamer_plugin_api_impl.c:286-324 | every update keeps discarded buffers no nearer than the kept one |
| `DataRepoSink.Sink.WriteFlexible` | gst/datarepo/gstdatareposink.c:319-393 | the tensors obtained from the buffer extend file and all three index arrays consistently, exactly if a valid header is found at the data pointer of each, the rest of the packed memory and whatever lies behind it included; otherwise the sample stops, leaving a described partial write |
| `DataRepoSink.StaticSink.WriteOthers` | gst/datarepo/gstdatareposink.c:277-311 | all memories of the buffer in a row, the packed header included, are appended and counted |
| `DataRepoSink.DescribesSnoc` | gst/datarepo/gstdatareposink.c:366-384 | adding one sample keeps file and index in agreement |
| `DataRepoSource.ReadAt` | gst/datarepo/gstdatareposrc.c:646-680 | whatever parts the reads deliver and however often they are interrupted, the exact slice is returned when the file holds it; short and empty reads at the end of the file are told apart |
| `DataRepoSource.ReadFlexible` | gst/datarepo/gstdatareposrc.c:744-870 | after any run of writes, reading sample i gives a buffer that stands for exactly its tensors, the last sample included, if and only if a valid header is found at the beginning of each, read into the memory behind a short one; up to sixteen tensors are its memories |
| `DataRepoSource.NumTensorsIsLength` | gst/datarepo/gstdatareposrc.c:708-738 | cumulative counts delimit the tensors of each sample, the last one through the size array |
| `DataRepoSource.TensorAt` | gst/datarepo/gstdatareposrc.c:788-858 | where tensor k of sample i lies in the file |
| `FlexibleRepo.FlexibleSurvivesIff` | gst/datarepo/gstdatareposrc.c:744-870 | whatever buffer the reader makes of a recorded buffer of flexible tensors, it reads back as those tensors if and only if there are at most sixteen |
| `FlexibleRepo.FlexibleView` | gst/datarepo/gstdatareposink.c:339-364 | up to sixteen flexible tensors reach the writer whole and are written, whatever lies behind them |
| `FlexibleRepo.SeventeenRecorded` | gst/datarepo/gstdatareposink.c:339-364 | seventeen flexible tensors are always recorded, since the data of the seventeenth begins with its whole header even where its window is shorter |
| `FlexibleRepo.ReadingNeedsRoom` | gst/nnstreamer/nnstreamer_plugin_api_impl.c:1640-1650 | a packed buffer, whatever descriptions it holds, can only be read back as tensors for which it has room |
| `FlexibleRepo.ShortTensorWitness` | gst/datarepo/gstdatareposink.c:339-364 | seventeen tensors of one byte: recorded, and no buffer made of the recording reads back |
| `FlexibleRepo.LongTensorWitness` | gst/datarepo/gstdatareposrc.c:788-870 | seventeen tensors of 128 bytes: recorded, delivered for every state of the memory, and not read back |
| `StaticRepo.ParseCaps` | gst/datarepo/gstdatareposrc.c:357-368 | the entries of the described tensors become their sizes and running sums, the entries behind them stay, and the sample size is the total |
| `StaticRepo.TrueTensorAt` | gst/datarepo/gstdatareposink.c:287-304 | where every tensor of every sample lies in the file, packed header included |
| `StaticRepo.MarkRecording` | gst/datarepo/gstdatareposink.c:287-304 | for every recording and nonempty tensor there is another recording of the same stream whose file differs in exactly the first byte of that tensor |
| `StaticRepo.TablesReadIff` | gst/datarepo/gstdatareposrc.c:608-680 | any tables find the selected tensors in every recording of a stream if and only if each selected entry has the right size and, unless empty, the right offset and sample size (or nothing can be recorded) |
| `StaticRepo.StaticRoundTripIff` | gst/datarepo/gstdatareposrc.c:357-368 | without a tensors-sequence every tensor of every sample is read as recorded, for all contents, if and only if a sample has at most sixteen tensors (or no data, or cannot be allocated) |
| `StaticRepo.SelectionReadsIff` | gst/datarepo/gstdatareposrc.c:1326-1365 | with a tensors-sequence the rebuilt tables find the selected tensors, for all contents, if and only if sizes, offsets and sample size happen to agree at the selected numbers |
| `StaticRepo.SeventeenMisread` | gst/datarepo/gstdatareposrc.c:357-368 | seventeen one-byte tensors of value 0, of which the sixteenth is read as 0xde |
| `StaticRepo.ExampleSelectionMisread` | gst/datarepo/gstdatareposrc.c:631-643 | the four tensors and the tensors-sequence of the example in the comment are not read back |
| `StaticRepo.ReadTensors` | gst/datarepo/gstdatareposrc.c:570-695 | for any file and tables: a buffer standing for the windows of the selected tensors, with the descriptions by position in the selection |
| `StaticRepo.StaticReplay` | gst/datarepo/gstdatareposrc.c:570-695 | writer, tables, reader and replay together, with or without a tensors-sequence, whenever the selected entries are right: position k of a run delivers the selected tensors of the sample recorded under the k-th index |
| `DataRepoSource.Player.Shuffle` | gst/datarepo/gstdatareposrc.c:521-547 | for all random choices the result is a permutation |
| `DataRepoSource.Player.EpochIsDone` | gst/datarepo/gstdatareposrc.c:553-565 | an epoch ends exactly after all its samples, and ending it emits nothing |
| `DataRepoSource.Player.NextIndex` | gst/datarepo/gstdatareposrc.c:587-603 | one more index of the range is emitted, or the run is over with all epochs played |
| `DataRepoSource.Player.Play` | gst/datarepo/gstdatareposrc.c:587-603 | a run emits exactly epochs times range size indices, each epoch a permutation of the range, the first (and without shuffling every) one ascending |
| `DataRepoSource.Player.constructor` | gst/datarepo/gstdatareposrc.c:1113-1114 | the range of a run is start to stop inclusive, nothing emitted yet |
| `DataRepoSource.FlexibleReplay` | gst/datarepo/gstdatareposrc.c:744-870 | writer, reader and replay together: position k of a run delivers a buffer of the tensors written under the k-th index; a run fails only if a buffer is not written or a tensor is shorter than its header |
| `DataRepoSource.LongIsAccepted` | gst/datarepo/gstdatareposrc.c:860-866 | a written tensor as long as the meta data is accepted by the reader, whatever lies behind it there |
| `Nms.Results.Suppression` | ext/nnstreamer/tensor_decoder/tensordec-boundingbox.cc:336-369 | sort, flag and remove in place leave exactly the simple greedy selection from the valid boxes, for any overlap measure and any order among equal probabilities |
| `Nms.Results.MarkAll` | ext/nnstreamer/tensor_decoder/tensordec-boundingbox.cc:347-359 | the nested loops compute the flags of the recursive description |
| `Nms.Results.RemoveInvalid` | ext/nnstreamer/tensor_decoder/tensordec-boundingbox.cc:361-368 | the do-while loop keeps exactly the valid boxes in order |
| `Nms.MarkRefinesSelect` | ext/nnstreamer/tensor_decoder/tensordec-boundingbox.cc:347-368 | flagging in place refines selecting and filtering |
| `Nms.SuppressionCorrect` | ext/nnstreamer/tensor_decoder/tensordec-boundingbox.cc:336-369 | survivors are a probability-sorted selection of the valid input, none is too close to an earlier one, and every other valid box is too close to a survivor of at least its probability |
| `Nms.SelectConserves` | ext/nnstreamer/tensor_decoder/tensordec-boundingbox.cc:336-369 | survivors and dropped boxes together are the input |
| `Nms.SortResults` | ext/nnstreamer/tensor_decoder/tensordec-boundingbox.cc:304-311 | descending probability and a permutation |
| `Tracker.CentroidTracker.UpdateCentroids` | ext/nnstreamer/tensor_decoder/tensordec-boundingbox.cc:443-592 | all boxes of a processed frame leave with distinct nonzero identities, each of a living centroid or brand new, never one of a removed centroid; the new centroids, counters and matches are described case by case |
| `Tracker.MatchPass` | ext/nnstreamer/tensor_decoder/tensordec-boundingbox.cc:529-557 | each centroid and each box is matched at most once, and every listed pair has a member matched no later in the list |
| `Tracker.CentroidTracker.Register` | ext/nnstreamer/tensor_decoder/tensordec-boundingbox.cc:571-590 | unmatched boxes get consecutive new identities and centroids in order |
| `Tracker.RemoveDisappeared` | ext/nnstreamer/tensor_decoder/tensordec-boundingbox.cc:450-459 | removal in place keeps exactly the centroids below the threshold, in order |
| `Tracker.ForgottenAfterHundred` | ext/nnstreamer/tensor_decoder/tensordec-boundingbox.cc:450-476 | a centroid that is never seen again lives for exactly a hundred empty frames |
| `Tracker.AgedMeaning` | ext/nnstreamer/tensor_decoder/tensordec-boundingbox.cc:529-569 | an unmatched centroid ages as in an empty frame, a matched one starts anew where it was |
| `Tracker.CentroidTracker.CountMissing` | ext/nnstreamer/tensor_decoder/tensordec-boundingbox.cc:559-569 | exactly the unmatched centroids count one more missing frame |
| `DistanceTable.TableCompleteIff` | ext/nnstreamer/tensor_decoder/tensordec-boundingbox.cc:498-508 | with rows strided by the number of centroids, every table entry is filled in if and only if there is one centroid or as many centroids as boxes |
| `DistanceTable.IncompleteWitness` | ext/nnstreamer/tensor_decoder/tensordec-boundingbox.cc:498-508 | two centroids and one box: the entry of the second centroid is never written |
| `DistanceTable.FillTable` | ext/nnstreamer/tensor_decoder/tensordec-boundingbox.cc:498-525 | exactly what each position holds: all columns of the last row and those of the other rows that are not overwritten, with their distances; positions not written are cleared by the resizing, terminator included, or keep old entries |
| `DistanceTable.FewerAllMatched` | ext/nnstreamer/tensor_decoder/tensordec-boundingbox.cc:529-557 | when every pair is listed, greedy matching leaves nobody of the less numerous side unmatched |
| `DistanceTable.DistanceMeaning` | ext/nnstreamer/tensor_decoder/tensordec-boundingbox.cc:511-523 | the square of the Euclidean distance to the place where a new centroid of the box would stand |
| `DistanceTable.NewCentroidInMiddle` | ext/nnstreamer/tensor_decoder/tensordec-boundingbox.cc:578-590 | a new centroid stands in the middle of its box |
| `DistanceTable.StandStill` | ext/nnstreamer/tensor_decoder/tensordec-boundingbox.cc:443-592 | boxes that stand still, with pairwise different middles, keep their identities |
| `DistanceTable.TrackFrame` | ext/nnstreamer/tensor_decoder/tensordec-boundingbox.cc:443-592 | removal, table, sort, matching and registration together, unless old entries are out of range: distinct identities in every processed frame; with a complete table every surviving centroid is matched, no pair is passed over for a match farther apart, and with as many boxes as centroids every box continues a centroid |
| `DistanceTable.StrayMatch` | ext/nnstreamer/tensor_decoder/tensordec-boundingbox.cc:498-557 | two centroids, three boxes and a fresh table: a run in which the first centroid takes the first box at squared distance 2000000 although the second is at distance 1 |
| `DistanceTable.SortedIsFull` | ext/nnstreamer/tensor_decoder/tensordec-boundingbox.cc:499-527 | whatever order the sort gives to equal distances, the complete table lists every pair with its distance, nearest first, and stays in range |
| `PoseLine.DrawLineWithDot` | ext/nnstreamer/tensor_decoder/tensordec-pose.c:572-632 | exactly the pixels of the frame in a dot around one of the given end points or covered by the line between them become white, both end points included, after exactly max(dx, dy) iterations |
| `PoseLine.OffsetsAreDot` | ext/nnstreamer/tensor_decoder/tensordec-pose.c:577-585 | the forty offsets are exactly a disc of squared radius 10 without its centre and four points on the axes |
| `PoseLine.RowMajor` | ext/nnstreamer/tensor_decoder/tensordec-pose.c:551-563 | pixels lie row by row |
| `PoseLine.DrawLine` | ext/nnstreamer/tensor_decoder/tensordec-pose.c:615-631 | the error-driven loop visits the closed-form points one by one and terminates at the end point |
| `PoseLine.LineGeometry` | ext/nnstreamer/tensor_decoder/tensordec-pose.c:615-631 | the closed-form line starts and ends right, never overshoots either axis, and stays within half a pixel of the ideal line, exactly half a pixel rounded down |
| `PoseLine.StateIsPoint` | ext/nnstreamer/tensor_decoder/tensordec-pose.c:615-631 | the bounded error term determines the point: the number of minor steps is the rounded quotient |
| `PoseLine.StateAdvances` | ext/nnstreamer/tensor_decoder/tensordec-pose.c:622-631 | every iteration steps on the major axis and keeps the error in its bounds |
| `PoseLine.SetPixel` | ext/nnstreamer/tensor_decoder/tensordec-pose.c:548-564 | the pixel and its right and lower neighbours, as far as inside the frame, and nothing if the pixel is outside |
| `PoseLine.DrawDots` | ext/nnstreamer/tensor_decoder/tensordec-pose.c:601-612 | the forty offsets around both end points, clipped to the frame |
| `ZipTail.ZipReadFile` | gst/nnstreamer/edgefirst_metadata.cc:73-241 | the scan and the directory walk compute the lookup for arbitrary file contents, wrap-around and failed seeks included |
| `ZipTail.ScanForEocd` | gst/nnstreamer/edgefirst_metadata.cc:113-125 | the last occurrence of the signature in the window, or none |
| `ZipTail.FindEocd` | gst/nnstreamer/edgefirst_metadata.cc:113-125 | nothing behind the result carries the signature |
| `ZipTail.TailLength` | gst/nnstreamer/edgefirst_metadata.cc:94-111 | the window holds an end record with the longest legal comment |
| `ZipTail.WalkDirectory` | gst/nnstreamer/edgefirst_metadata.cc:166-237 | the loop stops at the first matching name, a bad record or the end |
| `ZipTail.EndFoundIff` | gst/nnstreamer/edgefirst_metadata.cc:94-130 | the tail window reaches the end record for every legal comment, and finds it if and only if its signature does not occur again behind it |
| `ZipTail.EndMissedWitness` | gst/nnstreamer/edgefirst_metadata.cc:113-125 | a well-formed archive of one stored file whose comment is an end record: the lookup of the file finds nothing |
| `ZipTail.EmptyEndHides` | gst/nnstreamer/edgefirst_metadata.cc:113-166 | whatever precedes it, an end record of no entries at the end hides every file |
| `ZipTail.LookupIgnoresPrefix` | gst/nnstreamer/edgefirst_metadata.cc:143-241 | appended to any bytes, an archive laid out as the format says, with names, extra fields and comments of any length in both headers, answers with the content of the first entry of the name, or with nothing |
| `ZipTail.WalkFinds` | gst/nnstreamer/edgefirst_metadata.cc:166-237 | from record k on the walk yields the first match among the remaining entries |
| `ZipTail.ReadsData` | gst/nnstreamer/edgefirst_metadata.cc:184-203 | the data is found behind a local header of its own name and extra lengths, shifted by the prefix |
| `Bytes.LittleEndian` | gst/nnstreamer/edgefirst_metadata.cc:48-62 | fields are stored least significant byte first |
| `ZipTail.ContentMeaning` | gst/nnstreamer/edgefirst_metadata.cc:203-232 | method 0 is stored, method 8 inflated to the recorded size, everything else is empty |
| `MqttFrame.MqttSink.Render` | gst/mqtt/mqttsink.c:800-858 | whatever the reused buffer held, the message frames exactly this buffer: sizes, stamps, caps string and bytes |
| `MqttFrame.SetMsgBufHdr` | gst/mqtt/mqttsink.c:725-745 | number and sizes of the memories, leaving the rest of the header |
| `MqttFrame.PutTimestamp` | gst/mqtt/mqttsink.c:688-704 | epochs and timestamps as given, without disturbing sizes or what follows |
| `MqttFrame.SplitMessage` | gst/mqtt/mqttsrc.c:1152-1162 | the loop cuts the windows announced in the header |
| `MqttFrame.FrameRoundTrip` | gst/mqtt/mqttsrc.c:1152-1162 | the receiver rebuilds the same memory boundaries and bytes from any framed message if and only if every memory is smaller than 2 GiB |
| `MqttFrame.LargeMemoryWitness` | gst/mqtt/mqttsrc.c:1152-1162 | a framed message with one memory of 2 GiB that is not rebuilt |
| `MqttFrame.HeaderLayout` | gst/mqtt/mqttcommon.h:49-64 | the fields follow each other as in the C struct |
| `MqttFrame.PutTimestampOnBuffer` | gst/mqtt/mqttsrc.c:1381-1404 | the stamps received from a header, in 64-bit arithmetic |
| `MqttFrame.TimestampPreservedOrCleared` | gst/mqtt/mqttsrc.c:1381-1404 | for every valid PTS the absolute time is preserved modulo 2^64, or all stamps are cleared exactly when the message predates the receiver base time or the shifted PTS is negative; exactly preserved where the signed sums are exact |
| `MqttFrame.NoPtsReceived` | gst/mqtt/mqttsrc.c:1381-1404 | a buffer without PTS is cleared unless the sender started later; then only DTS and duration arrive |

## Left out

- Tracker.CentroidTracker.UpdateCentroids: takes the sorted distance table as a parameter, any list of in-range pairs; when the table is incomplete the source also uses entries left over from earlier frames, which need not be in range, and reading there is undefined. The identity counter does not wrap at 2^32.
- Tracker.MatchPass: the same restriction to in-range pairs.
- DistanceTable.TrackFrame: entries left over from earlier frames are in range, or the table is complete; otherwise the source reads outside its arrays. Squared distances do not wrap at 2^64.
- Framerate.CompareRate: unbounded integers; `_gcd` negates its operands, which overflows in C for the smallest `gint`.
- Nms.Results.Suppression: takes the overlap measure as a parameter over real numbers; the float arithmetic of `iou` is not modelled.
- PoseLine.DrawLineWithDot: coordinates are unbounded integers, without 32-bit overflow.
- MqttFrame.MqttSink.Render: dynamic buffer sizing only (max-buffer-size 0); allocation, connection state and publishing are not modelled.
- MqttFrame.SplitMessage: a header announcing more than sixteen memories or a negative size counts as a failure.
- MqttFrame.TimestampPreservedOrCleared: where a signed sum overflows, which is undefined in C, the model wraps.
- DataRepoSink.Sink.WriteFlexible: the file system accepts every write completely; buffers count at most NNS_TENSOR_SIZE_LIMIT tensors.
- DataRepoSource.ReadFlexible: stated for the index arrays of a successful run of writes.
- FlexibleRepo.FlexibleSurvivesIff: sparse tensors are not covered; for them `ReadsBackIff` decides.
- StaticRepo.ReadTensors: sample offsets are exact, since a file position has 63 bits; descriptions are those of a valid configuration.
- StaticRepo.StaticReplay: the selected entries are right, which is the exact condition of `TablesReadIff`, and at most sixteen tensors are selected.
- DataRepoSource.Player.constructor: start does not exceed stop, which the source does not check.
- TimeSync.Mux.CollectBuffer: slowest and base pad modes; no-sync and refresh modes and caps negotiation are not modelled. When an assertion stops the process, the pads behind may already be updated.
- PadBuffers.OutputReadsBackIff: pads in sparse format are not covered, nor is the merging of tensor contents.
- TensorBuffer.Buffer.AppendMemory: reference counting and mapping failures are not modelled; past the table of 240 descriptions the content of the packed memory is left open, as it is in C.
- TensorBuffer.Buffer.GetNthMemory: index 256 and above is left open when the header claims that many tensors.
- ZipTail.ZipReadFile: inflating is a parameter; ZIP64 is not supported by the source.
- Tensor names, the parsing of type names and quantization metadata: table lookups and copies without a property that spans functions.
- Image, video and audio samples of the data repository.
- gRPC, flatbuffers, protobuf, flexbuf and Python sub-plugins, filters, the join element and Android sources: behaviour of foreign libraries.
- Image segmentation, tensor transforms and other floating-point arithmetic.
- Configuration files, sub-plugin registry, logging, allocator wrapper, fonts and tools.
