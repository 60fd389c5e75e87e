# Audio glitch detector, modelled in Dafny

The audio glitch detector looks for discontinuities ("glitches") in sinusoidal audio. For
every channel it takes the absolute first difference `|x[i] - x[i-1]|`. It flags the interior
samples whose difference is strictly above a threshold and merges the flags of all channels.
It then thins them with a windowed deduplication, or with a plain sort-and-unique. The
repository holds several generations of this logic:

- the packaged detector (`GlitchDetector.detect` / `detect_with_offset`) and its command line
  (file mode over overlapping blocks, stream mode with a running total);
- the packaged live stream detector, with a two-slot peak meter acting as a signal gate and a
  capture loop that reports positive counts and can keep the offending chunks;
- three batch file classes and the `detect.py` script: overlapping one-second blocks, every
  block-local hit shifted by a frame cursor, everything sorted and made unique at the end;
- the script-era realtime and stream copies, and the WAV script with per-channel counts.

This project models all of them over exact reals (`real`, no IEEE rounding) and proves:

- what each operation computes;
- how the copies relate to each other;
- where the code departs from what it evidently intends.

Modules follow the program's structure:

| module | file | what it models |
|---|---|---|
| `Faults` | faults.dfy | the numpy and Python errors the code raises, as a `Result` |
| `Seqs` | seqs.dfy | `set(xs)`, strictly ascending lists, list concatenation, index shifting |
| `Arith` | arith.dfy | Python's `int(a / b)` (truncation) and `math.ceil(a / b)` |
| `Signal` | signal.dfy | blocks (channels × frames) and their peak magnitude `np.max(np.abs(...))` |
| `Pcm` | pcm.dfy | `np.frombuffer` of 16/32-bit little-endian PCM, `split_channels`, `convert_to_float` |
| `Normalize` | normalize.dfy | the zero-guarded, unguarded and in-place `normalize_data` variants |
| `Kernel` | kernel.dfy | `calc_abs_derivative`, `get_discontinuities` with its `[[]] * n` aliasing, per-channel counts |
| `Dedup` | dedup.dfy | `remove_duplicates` (sort, unique, keep values at least `window` past the last kept one) |
| `Detector` | detector.dfy | `GlitchDetector`, `DetectionResult`, offsets and timestamps |
| `Meter` | meter.dfy | the read-and-clear two-slot peak meter |
| `Stream` | stream.dfy | the live stream detector: per-chunk pipeline, gate, one pass of the capture loop |
| `Legacy` | legacy.dfy | the script-era realtime/stream pipelines and the WAV script |
| `Segmenter` | segmenter.dfy | `open_file` / `_process_block` / `process_file` of the file classes, and `detect.py`'s main loop |
| `Cli` | cli.dfy | the command line's file mode (`run_file_mode`) and stream callback (`glitch_callback`) |

Decibel levels are kept as the amplitudes they stand for: a level of `20·log10(a)` dB is held
as `a`, so 0 dB is `1.0` and the default -40 dB gate is `0.01`. Because `log10` is strictly
increasing, every comparison the code makes in decibels is the same comparison on
amplitudes.

The packaged detector imports `calculate_derivative`, `find_glitch_indices` and
`filter_nearby_glitches` from `audio_glitch_detector/core/analysis.py`, which is not part of
this model. They are modelled as their visible counterparts in `utils/utils.py`, as an explicit
assumption:

- `calc_abs_derivative`;
- the per-channel threshold scan;
- `remove_duplicates` with its default window of 10.

`Detector.AliasingInvisibleAfterDedup` shows that, after the dedup, the aliased and the
per-channel versions of the scan give the same indices. The same holds for
`audio_glitch_detector.utils.utils` and `audio_glitch_detector.utils.audio_meter`, imported by
the packaged stream detector: they stand for `utils/utils.py` (with `count_discontinuities`
standing for `get_discontinuities`) and for `utils/audio_meter.py`. Two more imports resolve to
modules this model does not see, and are taken as the same stand-ins:

- `from utils import ...` in `detectors/detect_discontinuity_realtime.py` (lines 4-10) has no
  `utils/__init__.py` to read. It is taken to bring in the functions of `utils/utils.py`, with
  its in-place `normalize_data`, as the sibling `detectors/detect_discontinuity_stream.py`
  does explicitly. `Legacy.InPlaceProcess` and `Legacy.InPlaceNeverCounts` rest on this.
- `discontinuity_detector.utils.utils.count_discontinuities` and
  `discontinuity_detector.utils.dsp.calc_abs_derivative`
  (`discontinuity_detector/detectors/detector_file.py`, lines 4-5) are taken to be
  `get_discontinuities` and `calc_abs_derivative` of `utils/utils.py`. `Segmenter.ProcessFile`
  and the lemmas about it rest on this for that copy.

The reader's block slicing (`sf.blocks`, `FileReader.read_blocks`) is outside the model. It
enters as an input contract, `Segmenter.Sliced` / `Cli.ReaderBlocks`:

- block `k` holds frames `k·step` up to a full block or the end of the file;
- the file classes start block `k` at frame `k·step`, and so does the command line's reader,
  where `step = blocksize - overlap`.

Behaviours of the code that a reader may not expect:

- The file classes catch an exception in the block loop and still return the sorted, unique
  partial list (`Segmenter.ProcessFileFrames`). They do not fail the whole run. The command
  line does exit with status 1.
- The signal gate compares both of the meter's two slots with the threshold. So a mono stream
  is never gated; see Findings.
- Nothing validates the overlap or the sample rate up front. A zero step raises
  `ZeroDivisionError` when the progress count is computed, and that is modelled as such.
- A glitch that two overlapping blocks both see gets the same absolute index from each
  (`Segmenter.LocalJumpIsGlobal`), not two nearby ones. So the final set-unique removes it.
- The packaged stream detector hands only the count to its callback. It computes no frame
  offset.

## Model

| member | source | states |
|---|---|---|
| Seqs.AscendingPairwise | utils/utils.py:29-30 | a list ascending from each value to the next has every earlier value below every later one, and conversely: the shape `sorted(set(...))` produces |
| Seqs.ConcatElems | audio_glitch_detector/core/detector.py:35-37 | a value is in the channel lists extended one after another iff it is in one of the channel lists |
| Seqs.ShiftElems | audio_glitch_detector/core/detector.py:51 | `a` is among the indices shifted by `k` iff `a - k` is among the original ones |
| Seqs.ShiftAscending | audio_glitch_detector/core/detector.py:51 | adding the same offset to every index keeps a strictly ascending list strictly ascending |
| Arith.TruncDiv | _detector/detect_discontinuities.py:57 | Python's `int(a / b)` for a positive divisor: `q·b <= a < (q+1)·b` for `a >= 0`, and rounding toward zero for negative `a` |
| Arith.CeilDiv | audio_glitch_detector/cli.py:92 | `math.ceil(a / b)`: the least `q` with `a <= q·b` for a positive divisor, and the mirror bounds for a negative one |
| Arith.CeilNearTrunc | discontinuity_detector/detectors/detector_file.py:63 | for a non-negative numerator the truncated quotient is at most the rounded-up one, which is at most one more |
| Signal.MaxAbs | utils/audio_meter.py:17 | a channel's peak bounds every sample's magnitude, is attained by some sample when the channel is non-empty, and is 0.0 for an empty channel |
| Signal.MaxAbsBlock | audio_glitch_detector/utils/dsp.py:16 | the block's peak bounds every sample's magnitude, is attained when the block has a sample, and is 0.0 otherwise |
| Signal.SilentIffZeroPeak | audio_glitch_detector/utils/dsp.py:16-18 | a block's peak is zero exactly when every sample is zero |
| Pcm.DecodeWord | audio_glitch_detector/utils/dsp.py:41 | a sample's little-endian two's-complement reading lies in the type's range `-(M+1) .. M` |
| Pcm.GetSamplesFromBlock | audio_glitch_detector/utils/dsp.py:34-41 | `np.frombuffer` succeeds iff the byte count is a multiple of the width (2 or 4), giving `len/2` or `len/4` samples, each in the type's range |
| Pcm.DecodeEncode | audio_glitch_detector/utils/dsp.py:34-41 | decoding the bytes of any in-range samples gives those samples back |
| Pcm.EncodeDecode | audio_glitch_detector/utils/dsp.py:34-41 | re-encoding the decoded samples of any whole-sample buffer gives the buffer back |
| Pcm.SplitChannels | utils/utils.py:64-66 | `np.vstack` of the strided slices succeeds iff there is at least one channel and the sample count is a multiple of the channel count; then there are `channels` rows, each `len / channels` long |
| Pcm.SplitEntry | utils/utils.py:66 | entry `j` of channel `c` is sample `j·channels + c` of the buffer |
| Pcm.SplitInterleave | audio_glitch_detector/utils/dsp.py:29-31 | splitting the frame-major interleaving of equal-length channels recovers the channels |
| Pcm.InterleaveSplit | audio_glitch_detector/utils/dsp.py:29-31 | interleaving the split channels recovers the sample buffer |
| Pcm.ConvertToFloat | audio_glitch_detector/utils/dsp.py:24-26 | the shape is kept and every output times the type's maximum `M` is the input sample |
| Pcm.ConvertToFloatRange | audio_glitch_detector/utils/dsp.py:24-26 | converted values lie in `[-(M+1)/M, 1]`, and a value falls below -1.0 exactly when it is the most negative code |
| Normalize.NormalizeGuarded | audio_glitch_detector/utils/dsp.py:14-21 | it raises iff the block has no sample; it keeps the shape and every sample's sign, and returns the block untouched when its peak is zero |
| Normalize.NormalizedRange | audio_glitch_detector/utils/dsp.py:20-21 | with a non-zero peak every output lies in [-1, 1] and some output has magnitude exactly 1 |
| Normalize.GuardedIsScale | audio_glitch_detector/utils/dsp.py:16-21 | with a non-zero peak the result is the block divided by its peak magnitude |
| Normalize.ScaledPeak | audio_glitch_detector/utils/dsp.py:16-20 | dividing a block by a positive factor divides its peak magnitude by that factor |
| Normalize.NormalizeIdempotent | audio_glitch_detector/utils/dsp.py:14-21 | normalising a normalised block changes nothing |
| Normalize.NormalizeScaleInvariant | audio_glitch_detector/utils/dsp.py:20-21 | dividing a block by any positive factor before normalising does not change the result |
| Normalize.NormalizeUnguarded | detect.py:35-42 | `np.max` raises iff the block has no sample; otherwise the result is NaN exactly when the peak is zero |
| Normalize.UnguardedAgreesWithGuarded | detect.py:35-42 | on a block with a non-zero peak the unguarded division gives what the guarded one gives |
| Normalize.SilenceBecomesNaN | detect_discont_wav.py:34-41 | a silent block turns into NaN without the guard and comes back untouched with it |
| Normalize.NormalizeIntsInPlace | utils/utils.py:40-46 | on an integer array `data /= max_val` always raises, and it is the cast error exactly when some channel has a sample (an empty array fails earlier, in `np.max`) |
| Kernel.ChannelDerivative | utils/utils.py:11 | `np.abs(np.convolve(x, [-1, 1]))[:-1]` has the channel's length, starts with `|x[0]|`, has `|x[i] - x[i-1]|` at every later `i`, and is never negative |
| Kernel.CalcAbsDerivative | utils/utils.py:5-12 | it raises iff some channel is empty; otherwise it has the block's shape, `d[c][0] = |x[c][0]|` and `d[c][i] = |x[c][i] - x[c][i-1]|` |
| Kernel.DerivativeNonNegative | utils/utils.py:11 | every derivative value is at least zero |
| Kernel.ScanFrom | utils/utils.py:20-22 | the scan from index `i` yields, in strictly ascending order, exactly the interior indices from `i` on whose value is strictly above the threshold, and is empty iff none is |
| Kernel.ChannelHits | utils/utils.py:20-22 | a channel's hits are exactly the `k` with `1 <= k <= N-2` and `d[k] > threshold`, strictly ascending, and none when `N <= 2` |
| Kernel.GetDiscontinuities | utils/utils.py:15-23 | one entry per channel; what the entries hold is stated by `Kernel.AliasedEntries` |
| Kernel.CountDiscontinuities | detect_discont_wav.py:21-31 | one counter per channel; what each counter holds is stated by `Kernel.CountsMatchOwnHits` |
| Kernel.AliasedEntries | utils/utils.py:18-22 | because of `[[]] * n`, every entry of the result is the same list: all channels' hits concatenated in channel order |
| Kernel.FreshEntries | utils/utils.py:18-22 | with one fresh list per channel, entry `c` holds exactly channel `c`'s hits |
| Kernel.AliasingCounterexample | utils/utils.py:18 | a stereo block with a jump in channel 0 only reports it for channel 1 too, while fresh lists report `[[2], []]` |
| Kernel.AliasingHarmless | utils/utils.py:18-22 | merging the aliased entries gives the same set of values as merging the per-channel hits |
| Kernel.MergedHits | audio_glitch_detector/core/detector.py:35-37 | the merged list holds exactly the frames that are a hit of some channel |
| Kernel.CountsMatchOwnHits | detect_discont_wav.py:21-31 | each counter of `[0] * n` is the number of that channel's own hits, so at most `max(0, N-2)` |
| Dedup.SpacedAdjacent | utils/utils.py:32-34 | spacing checked from each kept value to the next is the same as every pair of neighbours being at least `window` apart |
| Dedup.SortedUnique | utils/utils.py:29-30 | `sorted(set(xs))` is strictly ascending and has exactly the values of `xs` |
| Dedup.AscendingUnique | utils/utils.py:29-30 | two strictly ascending lists with the same values are equal |
| Dedup.Thin | utils/utils.py:32-34 | the greedy scan keeps a strictly ascending, window-spaced subset of its input, whose first value is at least `window` past the last kept one |
| Dedup.RemoveDuplicates | utils/utils.py:26-37 | the result is empty iff the input is; it is strictly ascending, window-spaced and a subset of the input, and starts with the input's minimum |
| Dedup.Coverage | utils/utils.py:31-34 | every input value `v` has a kept `k` with `k <= v < k + window` |
| Dedup.Idempotent | utils/utils.py:26-37 | removing duplicates twice gives what removing them once gives |
| Dedup.SetDetermined | utils/utils.py:28-30 | the result depends only on the set of input values, not on their order or multiplicity |
| Dedup.SortedUniqueOfAscending | utils/utils.py:29-30 | `sorted(set(xs))` of a strictly ascending list is that list |
| Dedup.ShiftSpaced | audio_glitch_detector/core/detector.py:51 | shifting every index by the same offset keeps the window spacing |
| Detector.GetTimeMs | utils/utils.py:69-71 | the scripts' `frame / (rate / 1000)` is the packaged detector's `(index / rate) · 1000` |
| Detector.TimeMonotone | detect.py:64-65 | for a positive rate, later frames get later times, strictly for strictly later frames |
| Detector.HitIsJump | audio_glitch_detector/core/detector.py:31-32 | a frame is a hit of the derivative iff the block jumps there by more than the threshold on some channel |
| Detector.Timestamps | audio_glitch_detector/core/detector.py:40 | one timestamp per index, each the index's time in milliseconds `(index / rate) · 1000` |
| Detector.GlitchesAreJumps | audio_glitch_detector/core/detector.py:31-39 | every merged and deduplicated index is a jump of the block |
| Detector.Detect | audio_glitch_detector/core/detector.py:29-46 | it fails only on an empty channel or a zero sample rate, and succeeds when neither holds; the count equals the number of indices and of timestamps; the indices are strictly ascending, window-spaced, and each is a jump |
| Detector.DetectComplete | audio_glitch_detector/core/detector.py:29-39 | every jump of the block lies within 10 samples after a reported index |
| Detector.DetectSoundComplete | audio_glitch_detector/core/detector.py:29-46 | reported indices are jumps, every jump is covered by a reported index, and timestamp `i` is index `i` in milliseconds |
| Detector.DetectWithOffset | audio_glitch_detector/core/detector.py:48-60 | it fails exactly when `detect` does, with the same error; the indices are `detect`'s shifted by the offset, the count is unchanged, and timestamps are recomputed from the absolute indices |
| Detector.OffsetZero | audio_glitch_detector/core/detector.py:48-60 | a zero offset gives exactly `detect`'s result |
| Detector.OffsetKeepsOrder | audio_glitch_detector/core/detector.py:51-59 | the offset result is still strictly ascending and window-spaced, and its count is still its length |
| Detector.AliasingInvisibleAfterDedup | audio_glitch_detector/detectors/detector_stream.py:39-45 | deduplicating the merged aliased lists gives the same indices as deduplicating the merged per-channel hits |
| Meter.NewMeter | utils/audio_meter.py:8-11 | a fresh meter has raw peaks 0.0 and levels 0 dB in both slots |
| Meter.UpdateFrom | utils/audio_meter.py:13-20 | the channel loop from `c` on succeeds iff every remaining channel is non-empty and has a slot; it raises each such slot to the channel's peak and leaves the levels and the other slots alone |
| Meter.PartialUpdate | utils/audio_meter.py:16-20 | the meter as the channel loop leaves it whether or not it raises: slot `i` is raised to its channel's peak iff every channel up to `i` was non-empty, other slots and the levels are untouched, and it is `update`'s result when that succeeds |
| Meter.Update | utils/audio_meter.py:13-20 | `update` succeeds iff there are at most two channels, all non-empty; each raw peak never decreases, becomes at least the channel's peak and is one of the two; levels and channel-less slots are unchanged |
| Meter.GetPeak | utils/audio_meter.py:22-27 | the read clears both raw peaks; a slot whose raw peak is positive reads it, and any other keeps its previous level |
| Meter.ReadTwice | utils/audio_meter.py:22-27 | two reads with no update between them return the same levels and leave the same meter |
| Meter.ReadingIsChunkPeak | utils/audio_meter.py:13-27 | read, update with a chunk, read: each present channel reads its own peak when positive, and otherwise the previous level |
| Meter.MonoKeepsSecondSlot | utils/audio_meter.py:13-25 | with one channel the second slot stays cleared at 0 dB through any update and read |
| Stream.NewStreamDetector | audio_glitch_detector/detectors/detector_stream.py:11-21 | a new detector is paused, not closed, has no saved chunks and a fresh meter |
| Stream.Decode | audio_glitch_detector/detectors/detector_stream.py:25-29 | decoding succeeds iff the bytes are whole samples forming whole frames for a positive channel count; it gives one row per channel, each holding its share of the bytes |
| Stream.ChunkGlitchCount | audio_glitch_detector/detectors/detector_stream.py:36-48 | counting after the gate succeeds iff the chunk has at least one channel and no empty channel |
| Stream.ChunkCountPositiveIffJump | audio_glitch_detector/detectors/detector_stream.py:36-48 | the count is positive exactly when the normalised chunk jumps by more than 0.2 somewhere |
| Stream.ChunkCountIsDetect | audio_glitch_detector/detectors/detector_stream.py:36-48 | the count is the packaged detector's `total_count` at threshold 0.2 on the normalised chunk |
| Stream.SilenceCountsZero | audio_glitch_detector/detectors/detector_stream.py:36-48 | digital silence counts zero |
| Stream.ProcessSamples | audio_glitch_detector/detectors/detector_stream.py:32-48 | the count is produced iff there are at most two channels, all non-empty, and either some channel or a closed gate (with no channel the meter loop does nothing and the gate may still return 0); it is 0 when both readings are below the gate and the post-gate count otherwise; the meter is read and cleared once the update succeeds, and keeps the partly raised peaks when the update raises |
| Stream.ProcessSamplesCorrected | audio_glitch_detector/detectors/detector_stream.py:32-34 | the corrected gate leaves the meter just as the original does, produces a count iff there are at most two channels, all non-empty, and does so whenever the original does |
| Stream.ThirdChannelRaises | utils/audio_meter.py:16-20 | a chunk with more than two non-empty channels raises the slot-index error after both slots were raised to the first two channels' peaks, and those raised peaks stay in the meter |
| Stream.QuietChunkIgnored | audio_glitch_detector/detectors/detector_stream.py:33-34 | with the corrected gate, a chunk whose every channel peaks below the gate counts zero |
| Stream.MonoGateNeverCloses | audio_glitch_detector/detectors/detector_stream.py:32-34 | as written, for a gate at or below 0 dB a mono chunk is always counted, and the idle second slot stays idle |
| Stream.MonoGateCounterexample | audio_glitch_detector/detectors/detector_stream.py:32-34 | a mono chunk peaking at -46 dB is normalised and counted as written, and ignored by the corrected gate |
| Stream.ProcessAudioData | audio_glitch_detector/detectors/detector_stream.py:23-48 | `_process_audio_data` produces a count iff the read is non-empty, whole samples, whole frames, and has one or two channels; a read that does not decode leaves the meter alone; the meter stays well-formed |
| Stream.ThresholdUnused | audio_glitch_detector/detectors/detector_stream.py:13-39 | the constructor's detection threshold does not affect the outcome |
| Stream.GetMeterData | audio_glitch_detector/detectors/detector_stream.py:118-119 | `get_meter_data` is `get_peak` on the detector's meter: each level is the slot's pending raw peak when positive and its previous level otherwise; the raw peaks are cleared, the meter's levels become that reading, and nothing else in the detector changes |
| Stream.Advance | audio_glitch_detector/detectors/detector_stream.py:50-69 | the exit event is checked first and closes; a paused detector or a read error changes nothing; a processing error escapes, and the detector keeps the meter as the failed call left it; the callback gets the count once iff it is positive, and the chunk is kept iff additionally saving is on |
| Stream.RunStep | audio_glitch_detector/detectors/detector_stream.py:50-72 | a pass of the live loop keeps the detector valid and crashes only on a chunk `_process_audio_data` rejects, leaving the meter that call left, for `get_meter_data` to read |
| Stream.StoppedIsIdle | audio_glitch_detector/detectors/detector_stream.py:97-103 | a stopped detector does nothing on a pass; `start` and `stop` only set the running flag |
| Stream.Loop | audio_glitch_detector/detectors/detector_stream.py:52-69 | over any passes, the saving flag is kept and every count handed to the callback is positive |
| Stream.SavedMatchesReports | audio_glitch_detector/detectors/detector_stream.py:61-67 | with saving on, one chunk is appended per report after those already saved; with saving off the saved list is unchanged |
| Stream.LoopKeepsValid | audio_glitch_detector/detectors/detector_stream.py:50-69 | a loop whose processing keeps the meter well-formed keeps the detector valid |
| Stream.RunLoop | audio_glitch_detector/detectors/detector_stream.py:50-72 | the live detector's loop keeps it valid over any passes |
| Legacy.ConvertIsScaledReals | audio_glitch_detector/utils/dsp.py:24-26 | `convert_to_float` is `astype(float)` followed by division by the type's maximum |
| Legacy.CountBlock | _detector/detect_discont_realtime.py:62-71 | derivative then merged count succeeds iff no channel is empty |
| Legacy.ScriptRows | _detector/detect_discont_realtime.py:58-59 | a read splits into two equal int16 channels iff its byte count is a multiple of 4, and they are non-empty iff the read is |
| Legacy.RealtimeProcess | _detector/detect_discont_realtime.py:56-71 | the script's `process_audio_data` succeeds iff the read is non-empty and a multiple of 4 bytes |
| Legacy.RealtimeIsCountBlock | _detector/detect_discont_realtime.py:56-71 | with signal it counts the guarded normalisation of the samples; on a silent read it counts zero |
| Legacy.RealtimeMatchesStream | _detector/detect_discont_realtime.py:56-71 | the script counts what the packaged stream detector counts past its gate on the same 16-bit stereo read |
| Legacy.InPlaceProcess | detectors/detect_discontinuity_stream.py:32-47 | the in-place copies always raise, with the cast error exactly on the reads the realtime script can count |
| Legacy.InPlaceNeverCounts | detectors/detect_discontinuity_realtime.py:13-28 | every read the realtime script counts, the in-place copies fail on |
| Legacy.WavCounts | detect_discont_wav.py:83-93 | the WAV pipeline succeeds iff the data is non-empty, whole int16 samples and whole frames for a positive channel count, and gives one counter per channel |
| Legacy.SplitPeak | detect_discont_wav.py:88-90 | the split rows have the peak of the interleaved buffer |
| Legacy.SplitScale | detect_discont_wav.py:89-90 | scaling the buffer then splitting it equals splitting then scaling every row |
| Legacy.SilentCounts | detect_discont_wav.py:21-31 | with a non-negative threshold a silent derivative counts zero on every channel |
| Legacy.WavSilent | detect_discont_wav.py:88-93 | a silent file's NaN path counts what the derivative of its split rows counts, and normalisation leaves those rows untouched |
| Legacy.WavSignal | detect_discont_wav.py:88-93 | for a file with signal, normalising before splitting counts what normalising the split rows counts |
| Legacy.WavNormalizeBeforeSplit | detect_discont_wav.py:88-93 | in both cases, the per-channel counts are those of the guarded normalisation of the split rows |
| Segmenter.Segmenting | _detector/detect_discontinuities.py:56-57 | `blocksize = samplerate` and `overlap = samplerate div 1000`, so `0 <= overlap < blocksize` for a positive rate, and `overlap >= 2` iff the rate is at least 2000 Hz |
| Segmenter.ProgressBlockCount | _detector/detect_discontinuities.py:86-87 | the progress count raises iff the step is zero; for a positive step it is the number of steps covering the file, or one more |
| Segmenter.BlockRecords | _detector/detect_discontinuities.py:61-78 | `_process_block` succeeds iff no channel of the block is empty |
| Segmenter.RecordIsJump | _detector/detect_discontinuities.py:68-75 | frame `a` is recorded iff the block jumps at `a - cursor` |
| Segmenter.RecordsAreJumps | _detector/detect_discontinuities.py:68-75 | the recorded frames are exactly the cursor plus the block's local jumps |
| Segmenter.RecordedOncePerChannel | _detector/detect_discontinuities.py:69-75 | because of the aliasing, the merged hits are recorded once per channel |
| Segmenter.SegmentFrom | _detector/detect_discontinuities.py:89-97 | the loop reads readable blocks until the file ends or a block raises, and the failing block is the one the derivative refuses |
| Segmenter.SegmentRecords | _detector/detect_discontinuities.py:74-78 | with block `k` at cursor `k·step`, the records are the accumulated ones plus every local jump of a block read, shifted by its start |
| Segmenter.PassRecords | _detector/detect_discontinuities.py:89-97 | a whole pass records exactly the shifted local jumps of the blocks it read |
| Segmenter.OpenFile | detectors/detect_discontinuity_file.py:32-42 | an opened file has `blocksize = samplerate` and, for a positive rate, a step between 1 and the block size; a failed probe exits with 1 or leaves no file, as the copy chooses |
| Segmenter.ProcessFile | discontinuity_detector/detectors/detector_file.py:56-76 | `None` iff the file never opened, a crash iff the step is zero, and otherwise a strictly ascending list |
| Segmenter.ProcessFileFrames | _detector/detect_discontinuities.py:80-102 | the reported frames are the shifted local jumps of every block before the first one that raises; the partial list survives |
| Segmenter.SameMember | _detector/detect_discontinuities.py:100-101 | a value is in `sorted(set(xs))` iff it is in `xs` |
| Segmenter.DetectMain | detect.py:85-135 | a missing file exits with -1, an unreadable block crashes the script, and otherwise the frames are strictly ascending |
| Segmenter.MainAgreesWithClasses | detect.py:93-124 | when every block is readable, the script and the file classes report the same frames |
| Segmenter.SlicedReadable | _detector/detect_discontinuities.py:91-94 | every block of a sliced file is readable |
| Segmenter.LocalJumpIsGlobal | _detector/detect_discontinuities.py:74 | a local jump shifted by its block's start is a jump of the file, so two blocks report a shared jump at one absolute frame |
| Segmenter.GlobalJumpIsFound | _detector/detect_discontinuities.py:56-57 | with an overlap of at least two frames every jump of the file is interior to some block |
| Segmenter.BoundaryFramesMissed | _detector/detect_discontinuities.py:56-57 | with an overlap of at most one frame, the first frame of any later block is interior to no block |
| Segmenter.SlicedFrames | _detector/detect_discontinuities.py:89-102 | on a sliced file a frame is reported iff some block has it as a shifted local jump |
| Segmenter.FoundIsJump | _detector/detect_discontinuities.py:74-75 | on a sliced file, a frame some block finds as a shifted local jump is a jump of the whole file |
| Segmenter.ProcessFileSound | detectors/detect_discontinuity_file.py:63-83 | every reported frame is a jump of the file |
| Segmenter.ProcessFileExact | discontinuity_detector/detectors/detector_file.py:56-76 | at 2000 Hz and above the report is exactly the set of the file's jumps |
| Segmenter.ProcessFileMissesBoundary | _detector/detect_discontinuities.py:56-57 | below 2000 Hz a jump where a later block starts is never reported |
| Segmenter.BoundaryCounterexample | _detector/detect_discontinuities.py:57 | a 4 Hz file with a step at frame 4 has a jump there, and the report leaves it out |
| Segmenter.CorrectedSegmenting | _detector/detect_discontinuities.py:56-57 | the corrected overlap is at least two frames with a positive step, and equals the original at 2000 Hz and above |
| Segmenter.CorrectedExact | _detector/detect_discontinuities.py:80-102 | with the corrected segmentation the report is exactly the set of the file's jumps at every rate |
| Cli.CliSegmenting | audio_glitch_detector/cli.py:83 | `overlap = int(block_size / 10)`; for a positive block size the step is between 1 and the block size, and from 20 frames on the overlap is at least two |
| Cli.TotalBlockCount | audio_glitch_detector/cli.py:92 | `math.ceil` raises iff the step is zero, and is otherwise the least number of steps covering the file |
| Cli.Reported | audio_glitch_detector/cli.py:103-105 | a block's absolute indices are `detect`'s local ones shifted by the block's offset |
| Cli.ZeroRateReportsNothing | audio_glitch_detector/core/detector.py:40-64 | with a zero sample rate a block converts only when it has no index |
| Cli.ZeroRateAll | audio_glitch_detector/cli.py:102-105 | with a zero sample rate no block that succeeds reports an index |
| Cli.CollectFrom | audio_glitch_detector/cli.py:97-111 | collecting succeeds iff every remaining block's detection succeeded |
| Cli.CollectFromMembers | audio_glitch_detector/cli.py:105 | the collected indices are the accumulated ones plus those of every remaining block |
| Cli.ReportResults | audio_glitch_detector/cli.py:113-120 | a printed report follows success on every block; its indices are strictly ascending, their count and timestamps match them, and every timestamp is its index in milliseconds; any exception exits with 1 |
| Cli.RunFileMode | audio_glitch_detector/cli.py:74-120 | any failure exits with 1, and a printed report needs an opened file and a non-zero step |
| Cli.UniqueIsReported | audio_glitch_detector/cli.py:113 | the unique indices are exactly those some block reported |
| Cli.ResultsPrinted | audio_glitch_detector/cli.py:113-120 | the report is printed iff every block succeeded, given that a zero rate reports no index |
| Cli.RunFileModeReports | audio_glitch_detector/cli.py:92-116 | once the file opened with a non-zero step, the run ends as the blocks' outcomes say |
| Cli.DetectAllPrinted | audio_glitch_detector/cli.py:102-116 | the detector's outcomes give a report iff every block's detection succeeded |
| Cli.FileModePrints | audio_glitch_detector/cli.py:74-120 | file mode prints iff the file opened, the step is non-zero and every block's detection succeeded |
| Cli.FileModeIndices | audio_glitch_detector/cli.py:113-116 | the printed indices are exactly the absolute indices some block reported |
| Cli.ReportedIsShifted | audio_glitch_detector/core/detector.py:51 | a reported absolute index minus the offset is an index `detect` found |
| Cli.ReportedIsLocalJump | audio_glitch_detector/cli.py:103 | a reported index is a jump of its block at the local position |
| Cli.ResultIsLocalJump | audio_glitch_detector/cli.py:102-105 | the same, read off the outcomes of all blocks |
| Cli.ChunkJumpIsFound | audio_glitch_detector/cli.py:102-103 | a local jump of block `j`, read at `j·step`, is found in block `j` at the absolute frame |
| Cli.ReportedIsFound | audio_glitch_detector/cli.py:102-105 | a frame some block reported is a shifted local jump of a block |
| Cli.ReportedIsJump | audio_glitch_detector/cli.py:102-113 | a frame some block of the sliced file reported is a jump of the file |
| Cli.BoundaryNotReported | audio_glitch_detector/cli.py:83 | with at most one frame of overlap no block reports the frame where a later block starts |
| Cli.FileModeSound | audio_glitch_detector/cli.py:74-116 | every frame file mode prints is a jump of the file |
| Cli.FileModeMissesBoundary | audio_glitch_detector/cli.py:83 | below 20 frames per block, a jump where a later block starts is never printed |
| Cli.GlitchCallback | audio_glitch_detector/cli.py:131-138 | the callback fails iff `detect` does; otherwise the running total grows by `detect`'s count, whatever the frame number, and never decreases |

## Left out

- Device and file I/O are outside the model: PyAudio stream open/read/close, `soundfile`/`wave` reading, `FileReader`, and `sf.blocks` slicing. The blocks a reader yields are an input (`Segmenter.Sliced`, `Cli.ReaderBlocks`). A device read is a `Stream.Read`, either a chunk or an `OSError`.
- Threads, `Event`, and the `KeyboardInterrupt` handler of `_run` are left out. So is the race in which the UI thread's `get_meter_data` also clears the meter. Only one deterministic pass of the capture loop is modelled (`Stream.Advance`), with the exit flag and the read as parameters.
- `close()`, `_open_stream()` and `open()` are device and thread management, so they are left out. Closing is the `Closed` outcome of a pass.
- IEEE rounding is left out: samples are exact reals. numpy's NaN from `0/0` is the `NotANumber` outcome, on which every `>` test is false.
- `log10` is left out: levels are amplitudes (see above).
- Argument parsing (including thresholds passed as unconverted strings), device listing, tqdm progress bars, terminal and rich output, `format_ms`, `show_results`, `plot_result`, `save_glitch_block` and `chunk2wav` are left out.
- The script-level streaming loops (`open_audio_stream`, the old stream class's `start`) are left out. Their per-chunk processing is modelled in `Legacy`.
- Meter.GetPeak: a level is held as the amplitude `a`, not as `20·log10(a)` dB, since the logarithm is not available; every comparison is equivalent.
- Legacy.WavNormalizeBeforeSplit: stated only for a non-negative threshold. With a negative threshold the NaN produced for a silent file still counts nothing, while the guarded rows would count every interior sample.
- Legacy.WavSilent: stated only for a non-negative threshold, for the same reason.
- Segmenter.ProgressBlockCount: for a negative step (an overlap larger than the block) the value is computed but has no contract beyond not raising.
- Kernel.GetDiscontinuities: its own contract states only the length. What it returns is stated by `Kernel.AliasedEntries`.
- Stream.Reset: `reset` only empties the saved list. It is a record update with no contract of its own.
- `audio_glitch_detector/core/analysis.py`, `audio_glitch_detector.utils.utils`, `audio_glitch_detector.utils.audio_meter`, the top-level `utils` package that `detectors/detect_discontinuity_realtime.py` imports, and `discontinuity_detector.utils` are not part of this model. They are replaced by their visible counterparts, as described above.

## Findings

| source | as written | input that shows it | evidently intended | confidence | as-written member | corrected member |
|---|---|---|---|---|---|---|
| utils/utils.py:18 | `counts = [[]] * num_channels` makes every entry one shared list, so each channel's entry holds all channels' hits | a stereo derivative `[[0,0,1,1],[0,0,0,0]]` at threshold 0.5 gives `[[2],[2]]` | one list per channel, giving `[[2],[]]` | not executed | Kernel.AliasingCounterexample | Kernel.FreshEntries |
| detectors/detect_discontinuity_stream.py:34-36 | the int16 array from `np.frombuffer` goes to the in-place `normalize_data`, and `data /= max_val` on an integer array raises, so no count is ever produced | any non-empty read whose byte count is a multiple of 4 | convert to float first, as `_detector/detect_discont_realtime.py` does, and count | not executed | Legacy.InPlaceNeverCounts | Legacy.RealtimeMatchesStream |
| audio_glitch_detector/detectors/detector_stream.py:33 | the gate requires both meter slots to be below the threshold; on a mono stream the second slot stays at 0 dB, so the gate never closes | a mono chunk `[0, 0.005, 0, 0]` (-46 dB, gate -40 dB) is normalised to full scale and counted | compare only the slots of channels the chunk has, so that the quiet chunk counts zero | not executed | Stream.MonoGateCounterexample | Stream.QuietChunkIgnored |
| _detector/detect_discontinuities.py:57 | `overlap = int(samplerate / 1000)` is at most one frame below 2000 Hz, and the scan skips each block's first and last frames, so a jump at the first frame of a later block is never seen | a 4 Hz mono file `[0,0,0,0,1,1,1,1]` with blocks of 4 frames has a jump at frame 4 and an empty report | an overlap of at least two frames, so that every interior frame of the file is interior to some block | not executed | Segmenter.BoundaryCounterexample | Segmenter.CorrectedExact |
