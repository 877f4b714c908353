# Music Excerpt Sampler: excerpt selection and spectral-flux onsets

This project models the two pure-logic pieces of the Music Excerpt Sampler in Dafny and proves their properties.

The first piece is the excerpt-selection engine of `src/selector.py`. It keeps the candidate start points (onsets or beats) at which an excerpt of the requested length still fits in the track. It then picks one of them at random, or falls back to a uniformly drawn start. It also derives an excerpt length from a tempo (`num_bars * 4 * 60 / bpm`, assuming 4/4 time) and post-processes a raw tempo estimate (`detect_bpm` replaces a missing tempo or one outside [60, 250] by 120; `detect_beats` keeps any tempo it gets).

The second piece is the in-house spectral-flux onset detector of `src/fft_onset.py`, without the FFT. It covers:

- peak normalisation of the waveform;
- the frame count and frame slicing of `window_fft`, as a method with a loop;
- the half-wave-rectified flux between consecutive spectrum rows;
- interior local-maximum peak picking against a threshold;
- the frame-index-to-seconds mapping;
- the composition `detect_onsets_inhouse`.

Files:

- `wrappers.dfy`: `Option`, the model of Python's `None` returns.
- `selector.dfy`: module `Selector`.
- `fft_onset.dfy`: module `FftOnset`.

All times are Dafny `real`. Randomness and the native audio and DSP code are parameters:

- `pick` is the index `random.choice` draws from the filtered candidate list. It must lie inside that list when the list is non-empty.
- `f` is the `random.random()` value in [0, 1) that `random.uniform(0, m)` scales to `0 + (m - 0) * f`.
- The decoder's output is a value, `Option<Decoded>`. `None` stands for a load that raised.
- The spectrum row of one frame (Hann window, `rfft`, magnitude, `log1p(1000 * |X|)`) is a function parameter, `analyze`.
- The standard deviation of the flux is a function parameter, `stdDev`. The mean is computed.
- The tempo analyser's output is a value, `TempoAnalysis`.

## Behaviour of the code worth noting

- The fallback does not clamp the excerpt length to the duration. When the excerpt is longer than the track, the start is 0 and the end is the excerpt length, past the end of the track (`Selector.FallbackOverrunsShortTrack`).
- Every onset of the in-house detector lies strictly inside (0, duration): peaks are never the first or last flux sample.
- The decoder is asked for a mono signal (`mono=True`); no channel averaging happens in the active code.
- `find_peaks` defaults its threshold factor to 1.0 (`FindPeaksDefaultFactor`). `detect_onsets_inhouse` passes on its own `threshold_factor` argument, whose default is 1.25 (`InhouseThresholdFactor`, used by `FftOnset.DetectOnsetsInhouseWithDefaults`).
- An empty decoded signal makes `np.max` raise inside `audio_loader`'s `try` block, and the `except` turns that into `(None, None)`. It is therefore a load failure (`AudioLoader` returns `None`).
- `detect_beats` passes any tempo through, including 0.0, and the bar and beat strategies divide by it.

## Model

| member | source | states |
|---|---|---|
| Selector.ValidStarts | src/selector.py:153 | A candidate is kept iff it is in the input and satisfies `c <= duration - length`. The result is no longer than the input. |
| Selector.ValidStartsCounts | src/selector.py:153-157 | Every feasible value keeps its multiplicity from the input and every infeasible value disappears, so a uniform index choice has no positional bias. |
| Selector.ValidStartsAppend | src/selector.py:153 | Filtering distributes over concatenation, so it is order-preserving. |
| Selector.ValidStartsAscending | src/selector.py:126 | An ascending onset list or beat grid stays ascending after filtering. |
| Selector.ChooseExcerptFromOnsets | src/selector.py:139-159 | Returns None iff no onset is feasible. Otherwise the start is a feasible onset, `end == start + length` and `end <= duration`. |
| Selector.EveryFeasibleOnsetChoosable | src/selector.py:153-158 | Every feasible onset is the start of the chosen excerpt for some admissible draw of the index. |
| Selector.ChosenExcerptInsideTrack | src/selector.py:153-159 | With non-negative onsets and a positive length, a chosen excerpt has `0 <= start < end <= duration`. |
| Selector.MaxStart | src/selector.py:172 | `max(0, duration - length)` is non-negative, at least `duration - length`, and equal to one of the two. |
| Selector.FallbackRandomExcerpt | src/selector.py:161-175 | `0 <= start <= max(0, duration - length)` and `end - start == length`. `end <= duration` when the length fits. When `length >= duration`, `start == 0` and `end == length`, with no clamp. |
| Selector.FallbackCoversRange | src/selector.py:172-173 | Every start in `[0, max(0, duration - length))` is produced by some draw in [0, 1). |
| Selector.FallbackOverrunsShortTrack | src/selector.py:172-175 | A 15 s excerpt of a 10 s track is `(0, 15)` whatever the draw. |
| Selector.ExcerptLengthFromBars | src/selector.py:224-229 | `length * bpm == 4 * numBars * 60`. The length is positive when bpm and the bar count are. |
| Selector.TwoBarsAt120Bpm | src/selector.py:224-229 | Two bars at 120 bpm last 4.0 s. |
| Selector.ChooseRandomExcerptManual | src/selector.py:74-93 | `end - start == length`. With no feasible onset the result is the fallback. Otherwise it starts on a feasible onset and ends inside the track. |
| Selector.ChooseRandomExcerptBars | src/selector.py:95-107 | The bar-formula length is used and bpm is returned unchanged. Fallback iff no onset is feasible, otherwise onset-aligned and inside the track. |
| Selector.ChooseRandomExcerptBeats | src/selector.py:109-137 | Same as the bar strategy, but over the beat grid. Fallback iff no beat is feasible, otherwise `end == chosen beat + length`. bpm is unchanged. |
| Selector.FeasibilityScenario | src/selector.py:153 | Onsets `[2, 4, 8]`, duration 10, length 3 leave `[2, 4]`. |
| Selector.DetectBpm | src/selector.py:187-199 | The result is always in [60, 250]. Failure or an empty tempo array gives 120. An in-range first tempo is returned unchanged, an out-of-range one gives 120. |
| Selector.DetectBeats | src/selector.py:211-222 | Failure gives `([], 120)`. Otherwise the beat times and the first tempo (120 if there is none), unclamped. |
| Selector.DetectBeatsKeepsZeroTempo | src/selector.py:216 | A zero tempo passes through `detect_beats` but is replaced by 120 in `detect_bpm`. |
| FftOnset.MaxAbs | src/fft_onset.py:23 | The peak absolute amplitude bounds every sample's magnitude and is attained by some sample. |
| FftOnset.Normalize | src/fft_onset.py:23-27 | Same length. Every sample lies in [-1, 1]. With a positive peak each sample is divided by it. Silence is returned unchanged. |
| FftOnset.NormalizedPeakIsOne | src/fft_onset.py:23-25 | A non-silent signal has a normalised sample of magnitude exactly 1. |
| FftOnset.SilenceUnchanged | src/fft_onset.py:26-27 | Peak 0 means every sample is 0, and normalisation returns the input. |
| FftOnset.AudioLoader | src/fft_onset.py:8-35 | Succeeds iff decoding succeeded with a non-empty signal. The signal is the normalised decoded samples: same length, every sample in [-1, 1]. The sample rate is kept. |
| FftOnset.NumFrames | src/fft_onset.py:59-62 | The count is 0 iff `n < frameSize`. Otherwise the last frame ends inside the signal and one more frame would not fit. |
| FftOnset.FrameFits | src/fft_onset.py:62-65 | Every frame `i < count` satisfies `i * hop + frameSize <= n`. |
| FftOnset.FrameAt | src/fft_onset.py:63-65 | Frame `i` holds `frameSize` samples, with sample `k` equal to `signal[i * hop + k]`. |
| FftOnset.WindowFft | src/fft_onset.py:53-76 | The loop yields exactly one spectrum row per frame that fits, in frame order, row `i` being the spectrum of frame `i`. |
| FftOnset.SpectraRectangular | src/fft_onset.py:69-76 | With `frameSize / 2 + 1` bins per frame, all spectrum rows have one width. |
| FftOnset.RectifiedIncrease | src/fft_onset.py:83-89 | A flux value is non-negative. |
| FftOnset.RectifiedIncreaseZeroIff | src/fft_onset.py:83-89 | A flux value is zero iff no bin increases between the two rows. |
| FftOnset.CalculateFlux | src/fft_onset.py:78-91 | R rows give exactly R - 1 non-negative values. Value `i` is the rectified bin-wise increase from row `i` to row `i + 1`. |
| FftOnset.FluxZeroIffNonIncreasing | src/fft_onset.py:83-89 | The whole flux is zero iff the spectrum never increases in any bin. |
| FftOnset.PeaksFrom | src/fft_onset.py:96-102 | The peaks from position `i` on are ascending. All of them are at least `i`, and every peak at or beyond `i` is listed. |
| FftOnset.FindPeaks | src/fft_onset.py:93-104 | `k` is returned iff `1 <= k <= len - 2`, `flux[k]` exceeds both neighbours, and `flux[k]` exceeds the threshold. Indices are strictly ascending. A flux shorter than 3 gives none. |
| FftOnset.PeakPickingScenario | src/fft_onset.py:93-104 | Flux `[1, 5, 1, 6, 1, 2]` with factor 1.0 and any standard deviation below 7/3 gives peaks `[1, 3]`. |
| FftOnset.FramesToSec | src/fft_onset.py:106-113 | Same length. Entry `k` times the sample rate is `peaks[k] * hop`. |
| FftOnset.FramesToSecMonotone | src/fft_onset.py:112 | The mapping is monotone non-decreasing. It maps strictly ascending indices to strictly ascending times when `hop > 0`. |
| FftOnset.TimeMappingScenario | src/fft_onset.py:112 | Frames `[1, 3]` at 44100 Hz with hop 512 give `[512/44100, 1536/44100]` s. |
| FftOnset.OnsetsInsideTrack | src/fft_onset.py:128-137 | A peak index between 1 and frames - 3 maps to a time strictly inside `(0, n / sr)`. |
| FftOnset.SumBounds | src/fft_onset.py:94 | Samples that all lie in [lo, hi] sum to between `n * lo` and `n * hi`. |
| FftOnset.MeanBounds | src/fft_onset.py:94 | The mean of a non-empty flux whose samples all lie in [lo, hi] lies in [lo, hi]. |
| FftOnset.Threshold | src/fft_onset.py:94 | With a non-negative `factor * std`, the threshold is at least the mean of the flux. |
| FftOnset.ThresholdBounds | src/fft_onset.py:94 | With every flux sample in [lo, hi], the threshold lies between `lo + factor * std` and `hi + factor * std`. |
| FftOnset.DetectOnsetsInhouse | src/fft_onset.py:115-137 | A failed load gives `(0.0, [])`. Otherwise `duration == n / sr`, and the onsets are the times of the flux peaks of the normalised signal's spectrum above `mean + factor * std`. Every onset lies strictly inside `(0, duration)`, and the onsets are strictly ascending. |
| FftOnset.DetectOnsetsInhouseWithDefaults | src/fft_onset.py:115-119 | The same with frame size 2048, hop 512 and threshold factor 1.25. |

## Left out

- The decoder (`librosa.load`, `get_duration`) is not modelled; its output is a parameter. The same holds for `librosa.onset.onset_detect`, `beat.beat_track` and `frames_to_time`. Consequently `detect_onsets` is not modelled, and `detect_bpm` and `detect_beats` are modelled only from the analyser's output on.
- The Hann window, `np.fft.rfft`, `np.abs` and `log1p` are not modelled. A spectrum row is the opaque result of the `analyze` parameter, with `frameSize / 2 + 1` bins.
- The standard deviation in the threshold `mean + k * std` is not modelled because it needs a square root. It is the `stdDev` parameter.
- Floating point is not modelled: there is no rounding, and no NaN (a NaN tempo would pass `detect_bpm`'s range test in the source).
- The zero-frame path, where `calculate_flux` gets a 1-D empty array and `np.sum(axis=1)` raises, is not modelled.
- DetectOnsetsInhouse: requires a non-empty decoded signal to hold at least `frameSize` samples, rather than modelling the exception above.
- DetectOnsetsInhouse: requires `frameSize > 0` (numpy's `rfft` raises on an empty frame) and `hopSize > 0` (the floor division raises on 0).
- ExcerptLengthFromBars: requires `bpm != 0`, because the source raises ZeroDivisionError there. `detect_beats` can deliver a zero tempo unclamped (`Selector.DetectBeatsKeepsZeroTempo`).
- ChooseRandomExcerptBars: requires `bpm != 0` for the same reason: it computes the bar-formula length.
- ChooseRandomExcerptBeats: requires `bpm != 0` for the same reason: it computes the bar-formula length.
- Default arguments of the strategies are not modelled: `num_bars` (4 for the bar strategy, 2 for the beat strategy) is always a parameter.
- Mean: an empty flux gives 0.0 here, where numpy gives nan; no peak can come from an empty flux, so nothing downstream differs.
- FallbackRandomExcerpt: the draw `f` is taken in [0, 1), the range of `random.random()`. Float rounding can make `random.uniform` return its upper bound; that is not modelled.
- `get_audio_info` and `get_beats_info` are not modelled. They are glue over the analysis cache, `src/cache.py`, whose functions have no bodies. The strategies take the track's duration, onsets, beats and bpm as parameters instead.
- `src/cache.py`, `src/main.py`, `src/player.py`, `src/exporter.py`, `scanner.py` and both `config.py` files are not part of this model. They are empty stubs, terminal UI, playback, file export, a directory walk and constants.
- The `print` diagnostics and the state of the `random` module are not modelled.
