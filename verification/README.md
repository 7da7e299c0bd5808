# HdrHistogram_c: a verified model

This project models HdrHistogram_c in Dafny and proves what the library is for, from the
log-linear bucket arithmetic up to concurrent recording and the histogram log. `dafny verify
dfyconfig.toml` checks all of it.

The layers, each of which uses only those above it:

| file | what it models |
|---|---|
| `Bits.dfy`, `Results.dfy`, `Sequences.dfy` | powers of two and the bit operations of C, error numbers, facts about sequences |
| `BucketMath.dfy`, `BucketConfig.dfy` | which slot a value falls into, equivalent values, and how many buckets a configuration needs |
| `Recording.dfy`, `Histogram.dfy` | the histogram as a state machine: recording, coordinated-omission correction, recomputing the counters |
| `Levels.dfy`, `LevelRuns.dfy` | the int64 reporting levels of the linear and logarithmic iterators as functions, and whole runs of them |
| `Iteration.dfy`, `LevelIteration.dfy`, `Adding.dfy` | iterators, loops over them, and `hdr_add` on top of the recorded iterator |
| `RankQueries.dfy` | percentile queries, by rank: scalar, in chunks of four lanes, and in batches |
| `AtomicRecording.dfy`, `CompareExchange.dfy` | recording by many threads with one step per atomic access, and the compare-exchange loops behind the atomics |
| `IntervalRecorder.dfy`, `RecorderSafety.dfy`, `Progress.dfy`, `SizeReads.dfy` | the writer-reader phaser and the interval recorder: the steps, the invariant and what follows from it, what threads can complete, and the reads outside the lock |
| `Leb128.dfy`, `CountsCodec.dfy`, `WireFormat.dfy`, `HistogramCodec.dfy` | ZigZag LEB128, run-length coded counts, headers, and whole encoded histograms |
| `Base64.dfy`, `LogText.dfy`, `LogGrammar.dfy`, `LogReader.dfy`, `LogStream.dfy` | Base64, the text of a log, the grammar of its entries, the state machine that reads it, and all of it together |
| `EndToEnd.dfy` | what the layers guarantee together about the samples of a concurrent run |

Code that changes state in place (`struct hdr_histogram`, the iterators, the codecs' buffers, the
log reader) is a class or a method over arrays, proved against functions; the theorems are about
these functions. What the functions are is stated apart from their definitions: slot indices by a
formula on the size of the value, reporting levels in closed form, encoded bytes by their positions
and digits, entries of a log by a grammar. Code that runs concurrently is a step system with one
step per atomic access, and the theorems range over all its runs. What has been recorded in a run is
computed from its actions alone, and what a thread can complete is proved from every state that a
run can reach.

These things about the code came out of the proofs:

- The reporting level of a linear or logarithmic iterator is an int64 that is added to or multiplied
  whenever it is reported, and no check keeps it from leaving int64. A run ends and counts what it
  promises exactly when no level that has wrapped around is reported
  (`LevelRuns.RightIffNoWrappedLevel`). `LevelRuns.PowersOf8NeverEnd` is a run that never ends: base
  8, first level 1, and a value of 2^61. Callers are safe when the next level of the last value with
  a slot fits int64 (`LevelRuns.RoomAboveTheSlots`), for instance with a linear iterator when the
  highest trackable value is below 2^62 and the width at most 2^62 (`LevelRuns.LinearBelow62`); for
  the logarithmic one the condition is that base times the last value with a slot fits.
- A payload length from -9 to -1 makes the decoder allocate 0 to 8 bytes and tell `inflate` that
  there is room for nearly 2^32. Decoding stays within its buffer exactly when the declared length
  is not negative, or so small that the allocation is refused, or what follows fits
  (`WireFormat.InBoundsIff`, and `HistogramCodec.OverrunIff` for any bytes). Every message of nine
  payload bytes that declares -1 instead overruns its buffer (`HistogramCodec.MinusOneOverruns`).
- Decoding recomputes the extreme values from the slots. `hdr_max` then reports what it reported
  before encoding exactly when the slot of a positive maximum is in use, or the maximum is 0 and a
  unit is 1 or the histogram is empty; `hdr_min` exactly when the slot of the minimum is in use or
  the minimum does not show, where a minimum of INT64_MAX stands for none and agrees only with slots
  that are all empty (`Recording.RecountedReports`). After records of positive counts two
  exceptions are left (`Recording.ConsistentComesBack`). In larger units a histogram of nothing but
  zeros reports the maximum 0 before and the highest value equivalent to 0 afterwards
  (`HistogramCodec.ZeroInWideUnits`). And when only INT64_MAX has been recorded, which a highest
  trackable value of INT64_MAX allows, the minimum is INT64_MAX before and the start of its slot
  afterwards (`HistogramCodec.OnlyMaxRecorded`). A record of count 0 moves the extremes without
  putting a slot in use, and these are lost (`HistogramCodec.ZeroTimes`).
- On an empty histogram, where every percentile becomes rank 1, `hdr_value_at_percentiles` leaves
  that 1 in place as its answer, and `hdr_value_at_percentile` answers with the highest value
  equivalent to 0 (`RankQueries.EmptyBatch`). Single and batch queries agree exactly on ranks up to
  the total, and on the rank that happens to be that value (`RankQueries.BatchAgreesIff`). Except
  through rounding in floating point, ranks beyond the total do not arise otherwise, because
  percentiles are capped at 100.
- Without a histogram to recycle, `hdr_interval_recorder_sample_and_recycle` reads three parameters
  of the active histogram before it takes the lock. What it reads has been allocated
  (`SizeReads.ReadExists`), and is not owned by a caller as long as no other sampler returns it
  after it was loaded (`SizeReads.ReadIsNotOwned`); otherwise a caller may own it by then, and may
  have closed it (`SizeReads.ReadOfOwned`).
- `hdr_base64_decode` does not reject characters outside the alphabet: `from_base_64` answers them
  with `EINVAL`, which is 22 and is then the value of the digit (`Base64.ForeignCharacter`).

## Model

Sources are relative to the root of the repository.

| member | source | states |
|---|---|---|
| BucketConfig.Power10 | src/hdr_histogram.c:169-177 | the loop computes the power of ten |
| BucketConfig.BucketsNeeded | src/hdr_histogram.c:361-376 | the doubling loop, which must not overflow int64, returns the least number of buckets whose range exceeds the value |
| BucketConfig.CalculateBucketConfig | src/hdr_histogram.c:386-430 | exactly the documented parameters are refused; otherwise magnitudes and slots are those the precision and the range require |
| BucketConfig.ConfigDetermined | src/hdr_histogram.c:386-430 | a configuration is determined by the three parameters, so sending these three is enough |
| BucketConfig.MagnitudeTable | src/hdr_histogram.c:406-408 | one to five significant figures give half-bucket magnitudes 4, 7, 10, 14 and 17 |
| BucketMath.Logarithms | src/hdr_histogram.c:406-415 | the two logarithms of the configuration are those to base 2, rounded down and up |
| BucketMath.IndexOfValueAtIndex | src/hdr_histogram.c:238-258 | the index of the value at an index is that index again |
| BucketMath.IndexFormula | src/hdr_histogram.c:211-244 | the index from the size of the value alone: value divided by the unit in the first bucket, and in bucket e half a bucket more for each bucket before and the value divided by 2^e units |
| BucketMath.SlotOfValue | src/hdr_histogram.c:238-300 | slots partition the values: the slot of a value starts at its lowest equivalent, the next one at its next non-equivalent value, and the value lies between |
| BucketMath.ValueAtIndexIncreasing | src/hdr_histogram.c:246-258 | slot starts strictly increase |
| BucketMath.IndexMonotone | src/hdr_histogram.c:238-244 | larger values never have smaller indices |
| BucketMath.EquivalentIffSameIndex | src/hdr_histogram.c:859-862 | two values are equivalent exactly when they share a slot |
| BucketMath.HighestEquivalentOfStart | src/hdr_histogram.c:297-300 | a value, the start of its slot and its highest equivalent value share the slot and the highest equivalent value |
| BucketMath.Precision | src/hdr_histogram.c:260-300 | a value and its highest equivalent differ by less than a unit in bucket 0, and by less than one part in 10^figures elsewhere |
| BucketMath.CoversIff | src/hdr_histogram.c:361-376 | a value has a slot exactly when it is below the range of the buckets |
| BucketMath.InRangeHasSlot | src/hdr_histogram.c:417-427 | every value up to the highest trackable one has a slot |
| BucketMath.BucketCountIsLeast | src/hdr_histogram.c:361-376 | with fewer buckets the highest trackable value has none |
| BucketMath.SlotValuesFitInt64 | src/hdr_histogram.c:246-295 | slot starts, including the one past the end, stay within the power of two that covers the range |
| Histograms.Init | src/hdr_histogram.c:451-486 | fails exactly for the refused parameters, and otherwise returns a new empty histogram of them |
| Histograms.Histogram.constructor | src/hdr_histogram.c:432-449 | the fields of a new histogram are those of an empty one |
| Histograms.Histogram.Reset | src/hdr_histogram.c:502-508 | back to the empty contents |
| Histograms.Histogram.CountsInc | src/hdr_histogram.c:86-101 | one slot and the total grow by the count, nothing else changes |
| Histograms.Histogram.UpdateMinMax | src/hdr_histogram.c:120-131 | the least non-zero and the greatest value are kept |
| Histograms.Histogram.RecordValues | src/hdr_histogram.c:534-553 | refines the specification of recording one value, refused values included |
| Histograms.Histogram.RecordCorrectedValues | src/hdr_histogram.c:587-611 | the loop records the back-filled values in order until one is rejected |
| Histograms.Histogram.ResetInternalCounters | src/hdr_histogram.c:317-359 | the counters become those derived from the slots alone |
| Recording.AcceptsIffInRange | src/hdr_histogram.c:534-553 | no value in range is ever rejected for lack of a slot |
| Recording.RunMeaning | src/hdr_histogram.c:534-553 | after any run every slot is the sum of the counts recorded for its values, and total, minimum and maximum are those of the accepted records |
| Recording.SummaryDetermines | src/hdr_histogram.c:534-553 | and only the contents that the run leaves behind satisfy this |
| Recording.RecordKeepsConsistent | src/hdr_histogram.c:534-553 | one record of a positive count keeps slots and counters consistent |
| Recording.RunKeepsConsistent | src/hdr_histogram.c:534-553 | so does any run of such records |
| Recording.CorrectedValues | src/hdr_histogram.c:587-611 | correcting records value, value - interval and so on, down to the last that is no less than the interval |
| Recording.CorrectedIsAllOrNothing | src/hdr_histogram.c:587-611 | no back-filled value is rejected when the value itself is accepted |
| Recording.TotalOfRun | src/hdr_histogram.c:534-553 | from any contents, a run adds to the total the counts of the records it accepts |
| Recording.CorrectedTotal | src/hdr_histogram.c:587-611 | from any contents, correcting an accepted value adds to the total the count times the quotient of value and interval, or the count once when the value is below the interval; a rejected value adds nothing |
| Recording.ReportedExtremes | src/hdr_histogram.c:691-709 | after records of positive counts no value in range lies outside of hdr_min and hdr_max, and each is the end of the slot of a recorded value unless it is 0 or INT64_MAX |
| Recording.RecountedIsConsistent | src/hdr_histogram.c:317-359 | recomputed counters agree with the slots |
| Recording.RunKeepsRange | src/hdr_histogram.c:534-553 | no record, of whatever count, puts a slot in use that starts above the highest trackable value |
| Recording.RunKeepsBounded | src/hdr_histogram.c:534-553 | any run of records, of count 0 too, keeps the total the sum of the slots and the slots beyond the extremes empty |
| Recording.RecountedReports | src/hdr_histogram.c:317-359 | recomputing changes no count and not the total, and the reported minimum and maximum exactly under the conditions described above |
| Recording.ConsistentComesBack | src/hdr_histogram.c:317-359 | after records of positive counts only a maximum of 0 in units larger than 1 and a minimum of INT64_MAX are reported differently |
| Iteration.Iterator.constructor | src/hdr_histogram.c:970-984 | an iterator starts before the first slot |
| Iteration.Iterator.WithLevels | src/hdr_histogram.c:1166-1176 | so does one with levels, at its first level |
| Iteration.Iterator.MoveNext | src/hdr_histogram.c:899-922 | one slot further, with the cumulative count of all slots passed |
| Iteration.Iterator.BasicNext | src/hdr_histogram.c:940-950 | moves exactly when something is left to count and the end has not been passed |
| Iteration.Iterator.AllValuesNext | src/hdr_histogram.c:958-968 | visits every slot, with its start, its count and the values iterated from and to |
| Iteration.Iterator.RecordedNext | src/hdr_histogram.c:1095-1109 | on to the next slot in use, with its start and its count as the count added; all slots passed over are empty |
| Iteration.Iterator.LevelNext | src/hdr_histogram.c:1129-1163 | a linear or logarithmic step, for any int64 level, width and base, refines one call of the functions of Levels, with the count added and the values iterated from and to; after a level is reported the next one is a width or a factor further, wrapped around |
| Iteration.Iterator.LevelStep | src/hdr_histogram.c:1186-1219 | the body of the loop that linear and logarithmic steps share either finishes the call or brings it closer |
| Levels.PositiveLevel | src/hdr_histogram.c:1139-1159 | a level past slot 0 is reported at its slot, where the iterator stands if that is further, or not at all when it has no slot |
| Levels.NegativeLevel | src/hdr_histogram.c:1139-1152 | a level that has become negative is reported at once |
| Levels.LevelInFirstSlot | src/hdr_histogram.c:1139-1152 | so is a level in slot 0, even before the first slot |
| Levels.Stride.NextLevel | src/hdr_histogram.c:1145-1202 | the levels in closed form, first + k * width and first * base^k, go from each to the next as the code computes it |
| LevelIteration.IterateLevels | src/hdr_histogram.c:1129-1234 | a loop over any linear or logarithmic iterator takes exactly the steps of the run, with their cumulative counts, counts added and values iterated to, and the counts added up to the end are the total |
| LevelIteration.StepsAreRight | src/hdr_histogram.c:1129-1234 | unless a wrapped level is reported, step k counts the values up to first + k * width, or first * base^k, and iterates to it |
| LevelRuns.RightIffNoWrappedLevel | src/hdr_histogram.c:1129-1219 | a run ends with every step right exactly when no level that has wrapped around is reported |
| LevelRuns.StepTakenIff | src/hdr_histogram.c:924-938 | unless a wrapped level is reported, a step is taken exactly when values are left beyond the level before, or the level lies in the same slot and that ends within int64 |
| LevelRuns.RunEnds | src/hdr_histogram.c:1129-1219 | it then ends within 2^63 calls |
| LevelRuns.RoomAboveTheSlots | src/hdr_histogram.c:1145-1147 | that is so when the next level of the last value with a slot fits int64 |
| LevelRuns.LinearBelow62 | src/hdr_histogram.c:1145-1147 | and for linear iterators when range and width are below 2^62 |
| LevelRuns.LinearIntrudes | src/hdr_histogram.c:1145-1147 | a width that leads out of int64 does harm unless the last level reported is in a last slot that ends at 2^63 |
| LevelRuns.PowersOf8NeverEnd | src/hdr_histogram.c:1198-1206 | a logarithmic run that never ends |
| LevelRuns.PowersOf8Exist | src/hdr_histogram.c:1198-1206 | there is such a run |
| Adding.Add | src/hdr_histogram.c:639-657 | refines adding slot by slot, with the count of what the target rejects |
| Adding.AddConserves | src/hdr_histogram.c:639-657 | what the target gains and what is dropped add up to the source's total |
| Adding.EqualConfigsAddPointwise | src/hdr_histogram.c:639-657 | between equal configurations nothing is dropped and slots add pointwise |
| Adding.RecordedSourceAddsPointwise | src/hdr_histogram.c:639-657 | so it is for every source that records have filled |
| Adding.AddAcrossConfigs | src/hdr_histogram.c:639-657 | between any two configurations every record goes, with its lowest equivalent value under the source's, to the slot of that value under the target's, and is dropped when that value is out of the target's range |
| Adding.AddKeepsConsistent | src/hdr_histogram.c:639-657 | the target stays consistent, whatever is added to it |
| RankQueries.RankFindsSlot | src/hdr_histogram.c:711-721 | the first slot whose prefix sum reaches t is the slot of the t-th smallest recorded value |
| RankQueries.RankAccuracy | src/hdr_histogram.c:772-783 | the answer for rank t is no less than the t-th smallest recorded value and exceeds it by less than the promised precision |
| RankQueries.RanksExist | src/hdr_histogram.c:772-783 | the ranks that exist are those up to the total count |
| RankQueries.ValuesMeaning | src/hdr_histogram.c:534-553 | the list that ranks refer to holds every value in range as often as it has been recorded |
| RankQueries.ScanScalar | src/hdr_histogram.c:711-721 | the scalar scan finds the first slot that reaches the rank |
| RankQueries.ScanChunked | src/hdr_histogram.c:725-758 | so does the scan by four wrapping 64-bit lanes with rescan and tail, for every length; its inner rescan always returns |
| RankQueries.ValueAtRank | src/hdr_histogram.c:772-783 | a query answers with the highest value equivalent to the slot's start |
| RankQueries.ValuesAtRanks | src/hdr_histogram.c:785-817 | one pass that overwrites ascending ranks with answers gives what separate queries give |
| RankQueries.AnswerReached | src/hdr_histogram.c:809-813 | the inner loop answers exactly the ranks that the slot reaches |
| RankQueries.BatchAgreesIff | src/hdr_histogram.c:785-817 | single and batch query agree exactly on ranks that exist and on the rank that is the highest value equivalent to 0 |
| RankQueries.EmptyBatch | src/hdr_histogram.c:796-803 | on an empty histogram the batch answers 1 |
| AtomicRecording.BeginKeepsInv | src/hdr_histogram.c:555-575 | starting a call keeps the invariant that contents and steps still due are the whole run |
| AtomicRecording.MicroKeepsInv | src/hdr_histogram.c:103-158 | so does each atomic add, load and compare-exchange, in any order |
| AtomicRecording.QuiescentIsSequential | src/hdr_histogram.c:555-575 | with no call in flight the contents are those of recording the run one after the other |
| AtomicRecording.AtomicRecordingIsSequential | src/hdr_histogram.c:555-575 | in every interleaving of any number of threads, whenever no call is in flight, slots, total, minimum and maximum are those of the sequential run of all calls made, as the events of the run list them |
| AtomicRecording.AloneFinishes | src/hdr_histogram.c:555-575 | wherever a thread stands inside a call, on its own it makes at most eight accesses and then has finished |
| AtomicRecording.AloneRecords | src/hdr_histogram.c:555-575 | a whole call on its own changes the histogram as the sequential function does |
| CompareExchange.LoopIsAtomic | src/hdr_atomic.h:41-80 | a compare-exchange loop that finishes, whatever other threads do, acted at exactly one access: the exchange left its value and returned the one before, the add-fetch left and returned the wrapped sum |
| CompareExchange.LoopFinishes | src/hdr_atomic.h:41-80 | it finishes as soon as the cell is the same at two accesses in a row |
| RecorderSafety.StepKeepsInv | src/hdr_interval_recorder.c:50-101 | every atomic step of writers and samplers keeps the invariant over epochs, lock, ownership and contents |
| RecorderSafety.RunKeepsInv | src/hdr_interval_recorder.c:50-101 | it holds in every state of every run |
| RecorderSafety.EpochsCountWriters | src/hdr_writer_reader_phaser.c:71-90 | start epoch minus end epoch is the number of writers in flight in the current phase, and outside a flip no other writer is in flight |
| RecorderSafety.FlipChangesPhase | src/hdr_writer_reader_phaser.c:103-142 | the exchange flips the phase that was read, with no writer of the new phase in flight |
| RecorderSafety.DrainCountsDown | src/hdr_writer_reader_phaser.c:121-138 | the difference that the flip waits on is the number of old writers, falls with each of their exits, never rises, and is 0 exactly when the flip ends |
| RecorderSafety.ReturnedHistogramsAreSafe | src/hdr_interval_recorder.c:50-79 | a writer in flight holds the active histogram or the one being drained, and never one that a caller owns |
| RecorderSafety.OwnedStaysUnchanged | src/hdr_interval_recorder.c:50-79 | over any stretch of a run, a histogram does not change while a caller owns it |
| RecorderSafety.NothingLostAcrossSamples | src/hdr_interval_recorder.c:56-101 | samples returned, the histogram being drained and the active one together hold every record that the actions of the run have begun, each once; each sample, and the active histogram whenever no call is under way on it, is the sequential histogram of its share |
| RecorderSafety.CountsAddUp | src/hdr_interval_recorder.c:56-101 | samples and active histogram then add up, slot by slot, to one histogram of every record that the actions have begun |
| Progress.RecordCompletes | src/hdr_interval_recorder.c:89-101 | from any reachable state a writer outside can complete a record of any value in range: it is then in the log of the active histogram and no other, whose slot has grown by its count |
| Progress.CalmsDown | src/hdr_interval_recorder.c:50-101 | from any reachable state all writers can leave and the holder of the lock can return its sample |
| Progress.SampleCompletes | src/hdr_interval_recorder.c:56-81 | then a sampler can return the active histogram and put an empty one in its place, recycled or new |
| Progress.RunIsReachable | src/hdr_interval_recorder.c:50-101 | every state of a run is such a state |
| SizeReads.ReadExists | src/hdr_interval_recorder.c:62-67 | what a sampler is about to read outside the lock has been allocated |
| SizeReads.ReadIsNotOwned | src/hdr_interval_recorder.c:62-67 | it is not owned by a caller as long as the lock holder does not return it after it was loaded |
| SizeReads.OwnedByReturn | src/hdr_interval_recorder.c:56-79 | a histogram comes into the hands of a caller only from the sampler that has drained it |
| SizeReads.ReadOfOwned | src/hdr_interval_recorder.c:62-67 | a run of two samplers in which one is about to read a histogram that the other has returned |
| Leb128.ZigZagRoundTrip | src/hdr_encoding.c:16-20 | the mask and shift map is the ZigZag map, and the decoder's inverts it on every int64 |
| Leb128.TokenRoundTrip | src/hdr_encoding.c:14-164 | decoding an encoded int64, whatever follows it, gives it back and reads exactly its 1 to 9 bytes |
| Leb128.LebGroups | src/hdr_encoding.c:22-97 | byte i holds the i-th seven bits, the lowest first, with the top bit set on all but the last; the ninth holds eight |
| Leb128.UnlebBounds | src/hdr_encoding.c:99-152 | nine bytes always hold a token, and no token is longer or exceeds 64 bits |
| Leb128.UnlebPrefix | src/hdr_encoding.c:99-152 | reading a token depends on nothing after it |
| Leb128.ZigZagEncode | src/hdr_encoding.c:14-97 | the unrolled cascade writes exactly the bytes of the recursive definition with a full ninth byte, and nothing else |
| Leb128.ZigZagDecode | src/hdr_encoding.c:99-164 | the unrolled cascade of ors and shifts reads exactly that token |
| CountsCodec.EncodeCounts | src/hdr_histogram_log.c:188-218 | the loop writes the run-length tokens of the counts, within nine bytes per slot |
| CountsCodec.NineBytesPerSlot | src/hdr_histogram_log.c:179-188 | the payload never exceeds nine bytes per slot |
| CountsCodec.RunsAreMaximal | src/hdr_histogram_log.c:190-218 | no zero is written alone and no run of zeros follows another |
| CountsCodec.CountsRoundTrip | src/hdr_histogram_log.c:188-218 | the bytes split into tokens that expand to the counts written |
| CountsCodec.ExpandStands | src/hdr_histogram_log.c:305-323 | each token stands for the slots behind those of the tokens before: -n for n empty slots, any other for one slot that holds it |
| CountsCodec.RunsStandFor | src/hdr_histogram_log.c:190-218 | so do the tokens written, for the counts they are written for |
| CountsCodec.ApplyToCountsZz | src/hdr_histogram_log.c:297-335 | on any bytes and any limit the loop ends, reads no more than nine bytes past the limit, and stops for the reason its result gives; on success zeroed counts become the expansion; a negative limit reads nothing and is a truncated value |
| CountsCodec.SuccessIffTokensFit | src/hdr_histogram_log.c:297-335 | the result is 0 exactly when the bytes within the limit are whole tokens whose expansion fits the slots |
| WireFormat.BigEndianRoundTrip | src/hdr_histogram_log.c:224-230 | big-endian words are read back |
| WireFormat.BigEndianDigits | src/hdr_histogram_log.c:224-230 | byte j of a word is its j-th digit to the base 256, the highest first |
| WireFormat.Layout | src/hdr_histogram_log.c:149-249 | where cookies, lengths, offset, figures, lowest and highest value, ratio and payload stand in an encoded histogram |
| WireFormat.UnpackLayout | src/hdr_histogram_log.c:570-631 | any bytes that are not rejected are read from the same places |
| WireFormat.PackedRoundTrip | src/hdr_histogram_log.c:224-249 | both headers and the payload are read back, whatever bytes follow |
| WireFormat.RejectedIff | src/hdr_histogram_log.c:570-607 | which bytes of the headers give which error, and which are of an older format |
| WireFormat.MissingBytes | src/hdr_histogram_log.c:620-644 | a payload shorter than declared is read as if each byte missing stood for one more empty slot |
| WireFormat.InBoundsIff | src/hdr_histogram_log.c:620-629 | what follows is inflated within its buffer exactly when the declared length is not negative, or the allocation is refused, or it fits in nine bytes more than declared |
| WireFormat.PackedDeclares | src/hdr_histogram_log.c:570-607 | a message that declares another payload length is read with that length, negative ones included |
| HistogramCodec.MessageFits | src/hdr_histogram_log.c:220-249 | lengths and fields of any encoded histogram are within their types |
| HistogramCodec.EncodeCompressed | src/hdr_histogram_log.c:173-260 | encoding returns the message of the histogram's parameters and its slots up to the greatest value |
| HistogramCodec.EncodedSlots | src/hdr_histogram_log.c:173-218 | the payload stands for the slots up to that of the greatest value, and for no others |
| HistogramCodec.DecodeMessage | src/hdr_histogram_log.c:609-644 | decoding overruns its buffer exactly when that is too small, otherwise succeeds exactly when the parameters are acceptable and the payload is whole tokens that fit, and otherwise returns the error of the first check that fails |
| HistogramCodec.OverrunIff | src/hdr_histogram_log.c:609-644 | decoding any bytes overruns the buffer exactly when an acceptable configuration comes with a declared length from -9 to -1 and more follows than was allocated |
| HistogramCodec.MinusOneOverruns | src/hdr_histogram_log.c:609-644 | the bytes of such messages: any acceptable configuration, any nine bytes, and -1 for their number |
| HistogramCodec.OverrunningMessage | src/hdr_histogram_log.c:609-644 | there is such a message |
| HistogramCodec.DecodePayload | src/hdr_histogram_log.c:633-644 | the payload from its buffer on, for lengths from -9 |
| HistogramCodec.DecodeCompressed | src/hdr_histogram_log.c:667-695 | the same for any bytes; bytes with a fault in their headers give the error of that fault |
| HistogramCodec.ZeroInWideUnits | src/hdr_histogram.c:341-349 | an input for which the maximum does not come back: one zero, in units of 2 |
| HistogramCodec.WideUnits | src/hdr_histogram.c:386-430 | there is such a configuration |
| HistogramCodec.OnlyMaxRecorded | src/hdr_histogram.c:120-131 | an input for which the minimum does not come back: INT64_MAX alone |
| HistogramCodec.WholeRange | src/hdr_histogram.c:386-430 | there is a configuration that takes it |
| HistogramCodec.ZeroTimes | src/hdr_histogram.c:534-553 | a value recorded zero times becomes the maximum, and recomputing the counters forgets it |
| HistogramCodec.DecodeInto | src/hdr_histogram_log.c:646-664 | into an existing histogram what is decoded with offset 0 is added, and what does not decode changes nothing |
| HistogramCodec.DecodingUndoesEncoding | src/hdr_histogram_log.c:173-260 | the encoding of what any records have left behind decodes, whatever follows it, and only to the same configuration, counts and total, and to the same reported minimum and maximum exactly under the conditions described above |
| HistogramCodec.CodecRoundTrip | src/hdr_histogram_log.c:173-695 | whatever the decoder returns for what the encoder has returned is that histogram, within these conditions, and no error |
| Base64.Alphabet | src/hdr_encoding.c:166-209 | letters, figures, '+' and '/' in the order of RFC 4648 stand for 0 to 63 both ways, and '=' is read as 0 |
| Base64.EncodingDigits | src/hdr_encoding.c:221-286 | each character stands for six bits of its group of three bytes, the highest first, or pads a group that is not full |
| Base64.ForeignCharacter | src/hdr_encoding.c:181-209 | a character outside the alphabet is not rejected but read as the digit that 'W' stands for |
| Base64.Base64RoundTrip | src/hdr_encoding.c:221-323 | decoding an encoding gives the bytes back, followed by zeros up to a multiple of three |
| Base64.EncodingLength | src/hdr_encoding.c:211-214 | an encoding has the announced length |
| Base64.DecodingLength | src/hdr_encoding.c:216-219 | so has a decoding |
| Base64.EncodeBlock | src/hdr_encoding.c:256-264 | a block is written in place and nothing else |
| Base64.EncodeBlockPad | src/hdr_encoding.c:221-251 | so is the padded rest |
| Base64.Encode | src/hdr_encoding.c:266-286 | the loop fills an output of the right length with the encoding, and refuses any other |
| Base64.DecodeBlock | src/hdr_encoding.c:291-303 | or-ing four shifted digits puts them side by side |
| Base64.Decode | src/hdr_encoding.c:305-323 | the loop decodes whole groups of four into an output of the right length, and refuses everything else |
| LogText.LineRoundTrip | src/hdr_histogram_log.c:877-883 | a line in the writer's layout is read back as its entry, and reading ends where the next line starts |
| LogText.StreamRoundTrip | src/hdr_histogram_log.c:1075-1209 | any sequence of lines is read back in order, and then the end of the file |
| LogGrammar.TimeIff | src/hdr_histogram_log.c:1030-1069 | a time is read exactly where a numeral stands with a comma behind it, and is the digits before the first point in seconds and those after it as a fraction, cut off after nanoseconds |
| LogGrammar.EntryIff | src/hdr_histogram_log.c:1075-1209 | on any text an entry is read exactly where line breaks, an optional tag, three numerals and a histogram stand, and with these values |
| LogGrammar.EndIff | src/hdr_histogram_log.c:1110-1126 | the end of the file is reported exactly when only line breaks are left |
| LogReader.ReadAhead | src/hdr_histogram_log.c:1016-1028 | succeeds exactly when the prefix stands in the text |
| LogReader.ReadAheadTimestamp | src/hdr_histogram_log.c:1030-1069 | reads a number on any text, with the multiplier divided by ten for each digit behind the point |
| LogReader.EntryReader.StepInit | src/hdr_histogram_log.c:1100-1130 | a step of the state machine keeps what the rest of the text will give |
| LogReader.EntryReader.StepTag | src/hdr_histogram_log.c:1131-1153 | the tag is stored as far as it fits, with a terminator if there is room |
| LogReader.EntryReader.StepTime | src/hdr_histogram_log.c:1154-1183 | the three times are read in their order |
| LogReader.EntryReader.StepHistogram | src/hdr_histogram_log.c:1184-1203 | the histogram's text is collected in a buffer that doubles when it is full |
| LogReader.ScanEntry | src/hdr_histogram_log.c:1075-1209 | on any text the state machine ends with what the functions of LogText give, and the position behind the entry; the tag buffer then begins with the tag and a terminator and is otherwise as before, or holds as much of the tag as fits |
| LogStream.LogEncode | src/hdr_histogram_log.c:1230-1263 | the text of a histogram is the Base64 encoding of its message |
| LogStream.LogDecode | src/hdr_histogram_log.c:1266-1294 | any text decodes to what its Base64 decoding decodes to, or is refused for its length |
| LogStream.WriteEntry | src/hdr_histogram_log.c:837-893 | a line in the layout is appended to the file |
| LogStream.WrittenOneMore | src/hdr_histogram_log.c:837-893 | the text of a log is what its calls append, one after the other |
| LogStream.ReadEntry | src/hdr_histogram_log.c:1075-1226 | reading an entry, tag buffer and histogram included, on any text |
| LogStream.TextIsRecoverable | src/hdr_histogram_log.c:1230-1294 | the text of a histogram decodes, and only to a histogram that restores it in this sense |
| LogStream.TextRoundTrip | src/hdr_histogram_log.c:1230-1294 | whatever decoding the text of a histogram returns is that histogram |
| LogStream.LogRoundTrip | src/hdr_histogram_log.c:837-1226 | a log of any calls reads back in order and then to the end: tags, start and interval in seconds and nanoseconds, hdr_max, and a text from which only the histogram of that call can be decoded |
| EndToEnd.SampledRanksAreAccurate | src/hdr_interval_recorder.c:56-79 | in every interleaving every rank of a returned sample is answered with the promised precision |
| EndToEnd.SamplesSurviveTheLog | src/hdr_interval_recorder.c:56-79 | samples of a concurrent run, written to a log in any order with any tags and times, are read back entry by entry and then to the end, each with its tag, its start and interval, its maximum and a text that only this sample can be decoded from |

## Left out

- Compression: zlib is the identity here. A stream shorter than the header, or longer than the declared payload, is an inflate error.
- Allocation failures: an allocation fails only when its size, a 64-bit size_t, exceeds PTRDIFF_MAX, as it does for declared payload lengths up to -10. An allocation of 0 bytes succeeds. What happens after a buffer has been overrun is not modelled.
- Decoding of versions 0 and 1: recognised as an older format and not decoded further.
- Floating point: turning a percentile into a rank, the mean, the standard deviation, the percentile iterator and the conversion ratio, which travels as its 64 bits. Logarithms in the bucket configuration are the exact integer ones.
- RankQueries.ValueAtRank: takes a rank instead of a percentile; a percentile of exactly 0, for which the single query answers with the lowest equivalent value, is not modelled.
- Log times: whole milliseconds, so that printing with three digits loses nothing; the writer's conversion through double is not modelled.
- Histograms.Histogram.RecordValues: counts and totals are unbounded integers; the overflow of an int64 count, which C leaves undefined, is not modelled. Where the lanes of the chunked scan wrap around, the model does too.
- LogReader.ReadAheadTimestamp: seconds and nanoseconds are unbounded, and the terminator is the comma that all callers pass.
- normalizing_index_offset: 0 in all operations, as the percentile scans and the recomputed counters assume; decoding passes the field on.
- HistogramCodec.DecodeInto: promises nothing about the target when the message has an offset other than 0, because the source would then add shifted slots.
- BucketMath.SlotOfValue: values are unbounded here. With a highest trackable value of 2^62 or more, the slot past the end starts at 2^63 and so does the next non-equivalent value of the last slot, which an int64 does not hold; the highest equivalent value, one less, it does. Where the iterators look at the slot past the end, the model wraps around (Levels.Peek64).
- Recording.RecordKeepsConsistent: for positive counts, and Recording.RunKeepsBounded for counts that are not negative. Negative counts are recorded, but the invariants and the codec say nothing about them.
- LevelRuns.RightIffNoWrappedLevel: for first levels of at least one unit, a positive width and a base of at least 2; below one unit the lowest equivalent value of a level is 0, and the code reports the level before it has moved to a slot. The signed overflow of a level, which C leaves undefined, wraps around, as does the shift that takes a negative level back to its lowest equivalent value.
- Adding.Add: needs a source other than the target whose total is that of its slots, as any run of records leaves it. hdr_add_while_correcting_for_coordinated_omission is a run of corrected records and is not modelled.
- RecorderSafety.RunKeepsInv: memory is sequentially consistent, the mutex is an abstract lock, yielding does nothing, and fewer than 2^63 writers enter in one phase. Allocating and resetting a spare histogram is one step, because no other thread can see it. Writers and the exchange of histograms are what is proved safe; the reads of a sampler outside the lock are a step of their own, which SizeReads shows not to be safe in every run, and what reading a closed histogram does is not modelled.
- Progress.CalmsDown: says what threads can complete from any reachable state, not that a scheduler lets them.
- AtomicRecording.AtomicRecordingIsSequential: the atomic operations are single steps, and CompareExchange shows that the loops behind them may stand for these steps. The non-atomic record functions are not meant for several writers and are modelled only sequentially.
- The deprecated hdr_interval_recorder_sample without recycling while other samplers run, the limit of INT32_MAX on the unit magnitude, which a 64-bit value cannot reach, and the shifting of values.
- FILE: a sequence of characters with a position. Log headers, printing of percentiles, header parsing and clocks are not modelled. Reading an entry decodes into a new histogram; HistogramCodec.DecodeInto covers the addition to an existing one.
