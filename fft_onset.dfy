/**
 * The in-house spectral-flux onset detector: peak-normalise the waveform,
 * slice it into overlapping frames, turn each frame into a spectrum row,
 * sum the bin-wise increases between consecutive rows, pick the interior
 * local maxima above a threshold and map their frame indices to seconds.
 *
 * The decoder, the spectrum of one frame (Hann window, real FFT, magnitude,
 * log compression) and the standard deviation of the flux are outside the
 * model and are passed in: the decoder's output as a value, the other two as
 * functions.
 */
module FftOnset {
  import opened Wrappers

  const DefaultFrameSize: nat := 2048
  const DefaultHopSize: nat := 512
  /** find_peaks' own default threshold factor. */
  const FindPeaksDefaultFactor: real := 1.0
  /** The default of detect_onsets_inhouse's threshold_factor, which it passes on to find_peaks. */
  const InhouseThresholdFactor: real := 1.25

  /** What the decoder returns for a file: mono samples and the native sample rate. */
  datatype Decoded = Decoded(samples: seq<real>, sampleRate: int)

  /** A loaded, peak-normalised signal. */
  datatype Loaded = Loaded(signal: seq<real>, sampleRate: int)

  function Abs(x: real): real
  {
    if x < 0.0 then -x else x
  }

  /**
   * Times (seconds) strictly ascending. Frame indices get their own predicate
   * below: Dafny has no `<` over a type parameter and does not treat a
   * seq<int> as a seq<real>.
   */
  predicate StrictlyIncreasing(s: seq<real>)
  {
    forall i, j :: 0 <= i < j < |s| ==> s[i] < s[j]
  }

  /** Frame indices strictly ascending. */
  predicate StrictlyIncreasingIndices(s: seq<int>)
  {
    forall i, j :: 0 <= i < j < |s| ==> s[i] < s[j]
  }

  // ---------------------------------------------------------------------
  // Loading and peak normalisation
  // ---------------------------------------------------------------------

  /** The peak absolute amplitude np.max(np.abs(y)); numpy refuses an empty array. */
  function MaxAbs(y: seq<real>): (m: real)
    requires |y| > 0
    ensures forall i :: 0 <= i < |y| ==> Abs(y[i]) <= m
    ensures exists i :: 0 <= i < |y| && Abs(y[i]) == m
  {
    if |y| == 1 then Abs(y[0])
    else
      var m' := MaxAbs(y[1..]);
      assert forall i :: 1 <= i < |y| ==> y[i] == y[1..][i - 1];
      if Abs(y[0]) >= m' then Abs(y[0]) else m'
  }

  lemma PositiveProduct(a: real, b: real)
    requires a > 0.0 && b > 0.0
    ensures a * b > 0.0
  {
  }

  lemma ScaledIntoUnitRange(x: real, m: real)
    requires m > 0.0 && Abs(x) <= m
    ensures -1.0 <= x / m <= 1.0
  {
    var q := x / m;
    assert q * m == x;
    if q > 1.0 {
      PositiveProduct(q - 1.0, m);
    }
    if q < -1.0 {
      PositiveProduct(-1.0 - q, m);
    }
  }

  /** Every sample divided by a positive bound on their magnitudes. */
  function ScaleDown(y: seq<real>, m: real): (out: seq<real>)
    requires m > 0.0
    requires forall i :: 0 <= i < |y| ==> Abs(y[i]) <= m
    ensures |out| == |y|
    ensures forall i :: 0 <= i < |out| ==> -1.0 <= out[i] <= 1.0 && out[i] == y[i] / m
  {
    var out := seq(|y|, i requires 0 <= i < |y| => y[i] / m);
    assert forall i :: 0 <= i < |y| ==> -1.0 <= out[i] <= 1.0 by {
      forall i | 0 <= i < |y|
        ensures -1.0 <= out[i] <= 1.0
      {
        ScaledIntoUnitRange(y[i], m);
      }
    }
    out
  }

  /**
   * The normalisation step of audio_loader: divide by the peak absolute
   * amplitude when it is positive, leave silence untouched. Every output
   * sample lies in [-1, 1].
   */
  function Normalize(y: seq<real>): (out: seq<real>)
    requires |y| > 0
    ensures |out| == |y|
    ensures forall i :: 0 <= i < |out| ==> -1.0 <= out[i] <= 1.0
    ensures MaxAbs(y) > 0.0 ==> forall i :: 0 <= i < |y| ==> out[i] == y[i] / MaxAbs(y)
    ensures MaxAbs(y) == 0.0 ==> out == y
  {
    var maxAmplitude := MaxAbs(y);
    if maxAmplitude > 0.0 then ScaleDown(y, maxAmplitude)
    else
      assert forall i :: 0 <= i < |y| ==> -1.0 <= y[i] <= 1.0 by {
        forall i | 0 <= i < |y|
          ensures -1.0 <= y[i] <= 1.0
        {
          assert Abs(y[i]) <= 0.0;
        }
      }
      y
  }

  lemma UnitQuotient(x: real, m: real)
    requires m > 0.0 && Abs(x) == m
    ensures Abs(x / m) == 1.0
  {
    assert m / m == 1.0;
    if x < 0.0 {
      assert x == -m;
      assert x / m == -(m / m);
    }
  }

  /** A non-silent signal is scaled so that its loudest sample has magnitude exactly 1. */
  lemma NormalizedPeakIsOne(y: seq<real>)
    requires |y| > 0 && MaxAbs(y) > 0.0
    ensures exists i :: 0 <= i < |y| && Abs(Normalize(y)[i]) == 1.0
  {
    var m := MaxAbs(y);
    var k :| 0 <= k < |y| && Abs(y[k]) == m;
    var out := Normalize(y);
    assert out[k] == y[k] / m;
    UnitQuotient(y[k], m);
    assert Abs(out[k]) == 1.0;
  }

  /** Silence (peak amplitude 0) consists of zero samples only, and normalisation leaves it as it is. */
  lemma SilenceUnchanged(y: seq<real>)
    requires |y| > 0 && MaxAbs(y) == 0.0
    ensures Normalize(y) == y
    ensures forall i :: 0 <= i < |y| ==> y[i] == 0.0
  {
    forall i | 0 <= i < |y|
      ensures y[i] == 0.0
    {
      assert Abs(y[i]) <= 0.0;
    }
  }

  /**
   * audio_loader on the decoder's output: a failed decode is a failure, and
   * so is an empty signal (np.max raises in the try block and the except
   * clause returns None);
   * otherwise the signal is normalised and the sample rate kept.
   */
  function AudioLoader(decoded: Option<Decoded>): (r: Option<Loaded>)
    ensures r.Some? <==> decoded.Some? && |decoded.value.samples| > 0
    ensures r.Some? ==> r.value.sampleRate == decoded.value.sampleRate
    ensures r.Some? ==> |r.value.signal| == |decoded.value.samples|
    ensures r.Some? ==> forall i :: 0 <= i < |r.value.signal| ==> -1.0 <= r.value.signal[i] <= 1.0
    ensures r.Some? ==> r.value.signal == Normalize(decoded.value.samples)
  {
    match decoded
    case None => None
    case Some(Decoded(y, sr)) =>
      if |y| == 0 then None else Some(Loaded(Normalize(y), sr))
  }

  // ---------------------------------------------------------------------
  // Framing
  // ---------------------------------------------------------------------

  /**
   * The number of frames window_fft produces: range((n - frameSize) // hopSize + 1),
   * which is empty when that count is not positive. Floor division by a
   * positive hop is Dafny's Euclidean division. The count is exactly the
   * number of frames that fit: the last one ends inside the signal and one
   * more would not.
   */
  function NumFrames(n: nat, frameSize: nat, hopSize: nat): (count: nat)
    requires hopSize > 0
    ensures count == 0 <==> n < frameSize
    ensures count > 0 ==> (count - 1) * hopSize + frameSize <= n
    ensures count * hopSize + frameSize > n
  {
    var q := (n - frameSize) / hopSize + 1;
    if q > 0 then q else 0
  }

  lemma FrameFits(n: nat, frameSize: nat, hopSize: nat, i: nat)
    requires hopSize > 0 && i < NumFrames(n, frameSize, hopSize)
    ensures i * hopSize + frameSize <= n
  {
    var count := NumFrames(n, frameSize, hopSize);
    assert i * hopSize <= (count - 1) * hopSize by {
      assert (count - 1) * hopSize - i * hopSize == (count - 1 - i) * hopSize;
    }
  }

  /** Frame `i`: the samples [i * hopSize, i * hopSize + frameSize), which lie inside the signal. */
  function FrameAt(signal: seq<real>, frameSize: nat, hopSize: nat, i: nat): (frame: seq<real>)
    requires hopSize > 0 && i < NumFrames(|signal|, frameSize, hopSize)
    ensures |frame| == frameSize
    ensures forall k :: 0 <= k < frameSize ==> frame[k] == signal[i * hopSize + k]
  {
    FrameFits(|signal|, frameSize, hopSize, i);
    signal[i * hopSize .. i * hopSize + frameSize]
  }

  /** The spectrum rows of all frames, one per frame, in frame order. */
  function Spectra(signal: seq<real>, frameSize: nat, hopSize: nat, analyze: seq<real> -> seq<real>): (rows: seq<seq<real>>)
    requires hopSize > 0
    ensures |rows| == NumFrames(|signal|, frameSize, hopSize)
    ensures forall i :: 0 <= i < |rows| ==> rows[i] == analyze(FrameAt(signal, frameSize, hopSize, i))
  {
    var count := NumFrames(|signal|, frameSize, hopSize);
    seq(count, i requires 0 <= i < count => analyze(FrameAt(signal, frameSize, hopSize, i)))
  }

  /**
   * window_fft: the loop that slices each frame and appends its spectrum row.
   * `analyze` stands for the Hann window, the real FFT, the magnitude and the
   * log compression of one frame.
   */
  method WindowFft(signal: seq<real>, frameSize: nat, hopSize: nat, analyze: seq<real> -> seq<real>)
    returns (spectra: seq<seq<real>>)
    requires hopSize > 0
    ensures spectra == Spectra(signal, frameSize, hopSize, analyze)
  {
    var numFrames := (|signal| - frameSize) / hopSize + 1;
    ghost var count := NumFrames(|signal|, frameSize, hopSize);
    spectra := [];
    var i := 0;
    while i < numFrames
      invariant 0 <= i <= count
      invariant |spectra| == i
      invariant forall k :: 0 <= k < i ==> spectra[k] == analyze(FrameAt(signal, frameSize, hopSize, k))
    {
      var start := i * hopSize;
      FrameFits(|signal|, frameSize, hopSize, i);
      var frame := signal[start .. start + frameSize];
      assert frame == FrameAt(signal, frameSize, hopSize, i);
      spectra := spectra + [analyze(frame)];
      i := i + 1;
    }
  }

  /** Spectrum rows of a common width, as np.array needs for a 2-D spectrum. */
  predicate Rectangular(rows: seq<seq<real>>)
  {
    forall i :: 0 <= i < |rows| ==> |rows[i]| == |rows[0]|
  }

  /** A spectrum function that maps every frame to rfft's frameSize / 2 + 1 bins yields a rectangular spectrum. */
  lemma SpectraRectangular(signal: seq<real>, frameSize: nat, hopSize: nat, analyze: seq<real> -> seq<real>)
    requires hopSize > 0
    requires forall f: seq<real> :: |f| == frameSize ==> |analyze(f)| == frameSize / 2 + 1
    ensures Rectangular(Spectra(signal, frameSize, hopSize, analyze))
  {
  }

  // ---------------------------------------------------------------------
  // Spectral flux
  // ---------------------------------------------------------------------

  /** Half-wave rectification, np.maximum(0, d). */
  function Rectify(d: real): real
  {
    if d > 0.0 then d else 0.0
  }

  /** The sum over bins b of max(0, next[b] - prev[b]). */
  function RectifiedIncrease(prev: seq<real>, next: seq<real>): (s: real)
    requires |prev| == |next|
    ensures s >= 0.0
  {
    if |prev| == 0 then 0.0
    else Rectify(next[0] - prev[0]) + RectifiedIncrease(prev[1..], next[1..])
  }

  /** No bin is larger in `next` than in `prev`. */
  predicate NoBinIncreases(prev: seq<real>, next: seq<real>)
    requires |prev| == |next|
  {
    forall b :: 0 <= b < |prev| ==> next[b] <= prev[b]
  }

  /** A flux value is zero exactly when no bin increases from one row to the next. */
  lemma {:induction false} RectifiedIncreaseZeroIff(prev: seq<real>, next: seq<real>)
    requires |prev| == |next|
    ensures RectifiedIncrease(prev, next) == 0.0 <==> NoBinIncreases(prev, next)
  {
    if |prev| > 0 {
      RectifiedIncreaseZeroIff(prev[1..], next[1..]);
      assert forall b :: 1 <= b < |prev| ==> prev[b] == prev[1..][b - 1] && next[b] == next[1..][b - 1];
    }
  }

  /**
   * calculate_flux: one value per pair of consecutive spectrum rows, so one
   * fewer than there are rows; each value is the rectified bin-wise increase.
   */
  function CalculateFlux(spectra: seq<seq<real>>): (flux: seq<real>)
    requires |spectra| >= 1 && Rectangular(spectra)
    ensures |flux| == |spectra| - 1
    ensures forall i :: 0 <= i < |flux| ==> flux[i] >= 0.0
    ensures forall i :: 0 <= i < |flux| ==> flux[i] == RectifiedIncrease(spectra[i], spectra[i + 1])
  {
    seq(|spectra| - 1, i requires 0 <= i < |spectra| - 1 => RectifiedIncrease(spectra[i], spectra[i + 1]))
  }

  /** The flux is all zero exactly when the spectrum never increases in any bin. */
  lemma FluxZeroIffNonIncreasing(spectra: seq<seq<real>>)
    requires |spectra| >= 1 && Rectangular(spectra)
    ensures (forall i :: 0 <= i < |spectra| - 1 ==> CalculateFlux(spectra)[i] == 0.0) <==>
      (forall i :: 0 <= i < |spectra| - 1 ==> NoBinIncreases(spectra[i], spectra[i + 1]))
  {
    var flux := CalculateFlux(spectra);
    forall i | 0 <= i < |spectra| - 1
      ensures flux[i] == 0.0 <==> NoBinIncreases(spectra[i], spectra[i + 1])
    {
      RectifiedIncreaseZeroIff(spectra[i], spectra[i + 1]);
    }
  }

  // ---------------------------------------------------------------------
  // Peak picking
  // ---------------------------------------------------------------------

  /** An interior flux sample strictly above both neighbours and the threshold. */
  predicate IsPeak(flux: seq<real>, thresh: real, i: int)
  {
    1 <= i <= |flux| - 2 && flux[i] > flux[i - 1] && flux[i] > flux[i + 1] && flux[i] > thresh
  }

  /** The peaks at positions i and beyond, ascending. */
  function PeaksFrom(flux: seq<real>, thresh: real, i: int): (peaks: seq<int>)
    requires i >= 1
    decreases |flux| - i
    ensures forall k :: 0 <= k < |peaks| ==> i <= peaks[k] && IsPeak(flux, thresh, peaks[k])
    ensures forall j :: i <= j && IsPeak(flux, thresh, j) ==> j in peaks
    ensures StrictlyIncreasingIndices(peaks)
  {
    if i > |flux| - 2 then []
    else if IsPeak(flux, thresh, i) then [i] + PeaksFrom(flux, thresh, i + 1)
    else PeaksFrom(flux, thresh, i + 1)
  }

  /**
   * The mean of the flux. numpy gives nan for an empty flux, this gives 0.0;
   * the difference cannot show, since an empty flux has no peaks.
   */
  function Mean(s: seq<real>): (r: real)
    ensures |s| > 0 ==> r * |s| as real == Sum(s)
  {
    if |s| == 0 then 0.0 else Sum(s) / |s| as real
  }

  function Sum(s: seq<real>): real
  {
    if |s| == 0 then 0.0 else s[0] + Sum(s[1..])
  }

  /** Samples in [lo, hi] sum to between n * lo and n * hi. */
  lemma {:induction false} SumBounds(s: seq<real>, lo: real, hi: real)
    requires forall i :: 0 <= i < |s| ==> lo <= s[i] <= hi
    ensures lo * |s| as real <= Sum(s) <= hi * |s| as real
  {
    if |s| > 0 {
      assert forall i :: 0 <= i < |s| - 1 ==> s[1..][i] == s[i + 1];
      SumBounds(s[1..], lo, hi);
      var n := (|s| - 1) as real;
      assert lo * (n + 1.0) == lo * n + lo;
      assert hi * (n + 1.0) == hi * n + hi;
    }
  }

  lemma ScaledBounds(x: real, n: real, lo: real, hi: real)
    requires n > 0.0 && lo * n <= x * n <= hi * n
    ensures lo <= x <= hi
  {
    if x < lo {
      PositiveProduct(lo - x, n);
    }
    if x > hi {
      PositiveProduct(x - hi, n);
    }
  }

  /** The mean of samples that all lie in [lo, hi] lies in [lo, hi] too. */
  lemma MeanBounds(s: seq<real>, lo: real, hi: real)
    requires |s| > 0
    requires forall i :: 0 <= i < |s| ==> lo <= s[i] <= hi
    ensures lo <= Mean(s) <= hi
  {
    SumBounds(s, lo, hi);
    ScaledBounds(Mean(s), |s| as real, lo, hi);
  }

  /** np.mean(flux) + threshold_factor * np.std(flux), with the standard deviation given. */
  function Threshold(flux: seq<real>, thresholdFactor: real, stdDev: real): (thresh: real)
    ensures |flux| > 0 ==> (thresh - thresholdFactor * stdDev) * |flux| as real == Sum(flux)
    ensures thresholdFactor * stdDev >= 0.0 ==> thresh >= Mean(flux)
  {
    Mean(flux) + thresholdFactor * stdDev
  }

  /**
   * With every flux sample in [lo, hi], the threshold lies between
   * lo and hi, each raised by thresholdFactor * stdDev.
   */
  lemma ThresholdBounds(flux: seq<real>, thresholdFactor: real, stdDev: real, lo: real, hi: real)
    requires |flux| > 0
    requires forall i :: 0 <= i < |flux| ==> lo <= flux[i] <= hi
    ensures lo + thresholdFactor * stdDev <= Threshold(flux, thresholdFactor, stdDev) <= hi + thresholdFactor * stdDev
  {
    MeanBounds(flux, lo, hi);
  }

  /**
   * find_peaks with its threshold given: exactly the interior local maxima
   * above the threshold, in ascending order, never the first or last sample.
   */
  function FindPeaks(flux: seq<real>, thresh: real): (peaks: seq<int>)
    ensures forall k :: k in peaks <==> IsPeak(flux, thresh, k)
    ensures forall k :: 0 <= k < |peaks| ==> 1 <= peaks[k] <= |flux| - 2
    ensures StrictlyIncreasingIndices(peaks)
    ensures |flux| < 3 ==> peaks == []
  {
    PeaksFrom(flux, thresh, 1)
  }

  /**
   * The flux [1, 5, 1, 6, 1, 2] has mean 8/3; with threshold factor 1 and any
   * standard deviation below 7/3 (its own is about 2.055) the peaks are at 1 and 3.
   */
  lemma PeakPickingScenario(stdDev: real)
    requires 0.0 <= stdDev < 7.0 / 3.0
    ensures FindPeaks([1.0, 5.0, 1.0, 6.0, 1.0, 2.0], Threshold([1.0, 5.0, 1.0, 6.0, 1.0, 2.0], FindPeaksDefaultFactor, stdDev)) == [1, 3]
  {
    var flux := [1.0, 5.0, 1.0, 6.0, 1.0, 2.0];
    assert Sum(flux) == 16.0 by {
      assert flux[1..] == [5.0, 1.0, 6.0, 1.0, 2.0];
      assert flux[1..][1..] == [1.0, 6.0, 1.0, 2.0];
      assert flux[1..][1..][1..] == [6.0, 1.0, 2.0];
      assert flux[1..][1..][1..][1..] == [1.0, 2.0];
      assert flux[1..][1..][1..][1..][1..] == [2.0];
    }
    var thresh := Threshold(flux, FindPeaksDefaultFactor, stdDev);
    assert 8.0 / 3.0 <= thresh < 5.0;
    assert PeaksFrom(flux, thresh, 5) == [];
    assert PeaksFrom(flux, thresh, 4) == [];
    assert PeaksFrom(flux, thresh, 3) == [3];
    assert PeaksFrom(flux, thresh, 2) == [3];
  }

  // ---------------------------------------------------------------------
  // Frame indices to seconds
  // ---------------------------------------------------------------------

  /** frames_to_sec: frame index k becomes k * hopSize / sampleRate seconds. */
  function FramesToSec(framePeaks: seq<int>, sampleRate: int, hopSize: int): (secs: seq<real>)
    requires sampleRate > 0
    ensures |secs| == |framePeaks|
    ensures forall k :: 0 <= k < |secs| ==> secs[k] * sampleRate as real == (framePeaks[k] * hopSize) as real
  {
    seq(|framePeaks|, k requires 0 <= k < |framePeaks| => (framePeaks[k] * hopSize) as real / sampleRate as real)
  }

  lemma ScaledOrder(a: int, b: int, hopSize: int, sampleRate: int)
    requires a <= b && hopSize >= 0 && sampleRate > 0
    ensures (a * hopSize) as real / sampleRate as real <= (b * hopSize) as real / sampleRate as real
    ensures a < b && hopSize > 0 ==> (a * hopSize) as real / sampleRate as real < (b * hopSize) as real / sampleRate as real
  {
    assert a * hopSize <= b * hopSize by {
      assert b * hopSize - a * hopSize == (b - a) * hopSize;
    }
    if a < b && hopSize > 0 {
      assert a * hopSize < b * hopSize by {
        assert b * hopSize - a * hopSize == (b - a) * hopSize;
      }
    }
  }

  /** The time mapping is monotone: later frames never map to earlier times, and distinct frames to distinct times when the hop is positive. */
  lemma FramesToSecMonotone(framePeaks: seq<int>, sampleRate: int, hopSize: int)
    requires sampleRate > 0 && hopSize >= 0
    ensures forall i, j :: 0 <= i < |framePeaks| && 0 <= j < |framePeaks| && framePeaks[i] <= framePeaks[j] ==>
      FramesToSec(framePeaks, sampleRate, hopSize)[i] <= FramesToSec(framePeaks, sampleRate, hopSize)[j]
    ensures hopSize > 0 && StrictlyIncreasingIndices(framePeaks) ==> StrictlyIncreasing(FramesToSec(framePeaks, sampleRate, hopSize))
  {
    var secs := FramesToSec(framePeaks, sampleRate, hopSize);
    forall i, j | 0 <= i < |framePeaks| && 0 <= j < |framePeaks| && framePeaks[i] <= framePeaks[j]
      ensures secs[i] <= secs[j]
      ensures framePeaks[i] < framePeaks[j] && hopSize > 0 ==> secs[i] < secs[j]
    {
      ScaledOrder(framePeaks[i], framePeaks[j], hopSize, sampleRate);
    }
  }

  /** Frames 1 and 3 at 44100 Hz with a hop of 512 samples are at 512/44100 and 1536/44100 seconds. */
  lemma TimeMappingScenario()
    ensures FramesToSec([1, 3], 44100, 512) == [512.0 / 44100.0, 1536.0 / 44100.0]
  {
  }

  // ---------------------------------------------------------------------
  // The whole pipeline
  // ---------------------------------------------------------------------

  /** A frame index at most count - 3 starts before the end of a signal that holds `count` frames. */
  lemma PeakStartsInsideSignal(p: int, count: nat, n: nat, frameSize: nat, hopSize: nat)
    requires hopSize > 0 && 1 <= p <= count - 3
    requires (count - 1) * hopSize + frameSize <= n
    ensures 0 < p * hopSize < n
  {
    assert p * hopSize < (count - 1) * hopSize by {
      assert (count - 1) * hopSize - p * hopSize == (count - 1 - p) * hopSize;
      PositiveIntProduct(count - 1 - p, hopSize);
    }
    PositiveIntProduct(p, hopSize);
  }

  lemma PositiveIntProduct(a: int, b: int)
    requires a > 0 && b > 0
    ensures a * b > 0
  {
  }

  lemma DivideBothByRate(a: int, n: int, sampleRate: int)
    requires 0 < a < n && sampleRate > 0
    ensures 0.0 < a as real / sampleRate as real < n as real / sampleRate as real
  {
    var sr := sampleRate as real;
    assert n as real / sr - a as real / sr == (n - a) as real / sr;
  }

  /** Every onset time of a peak list over `count` frames lies strictly inside the n-sample signal. */
  lemma OnsetsInsideTrack(framePeaks: seq<int>, count: nat, n: nat, frameSize: nat, hopSize: nat, sampleRate: int)
    requires hopSize > 0 && sampleRate > 0
    requires forall k :: 0 <= k < |framePeaks| ==> 1 <= framePeaks[k] <= count - 3
    requires count > 0 ==> (count - 1) * hopSize + frameSize <= n
    ensures forall k :: 0 <= k < |framePeaks| ==>
      0.0 < FramesToSec(framePeaks, sampleRate, hopSize)[k] < n as real / sampleRate as real
  {
    var secs := FramesToSec(framePeaks, sampleRate, hopSize);
    forall k | 0 <= k < |framePeaks|
      ensures 0.0 < secs[k] < n as real / sampleRate as real
    {
      PeakStartsInsideSignal(framePeaks[k], count, n, frameSize, hopSize);
      DivideBothByRate(framePeaks[k] * hopSize, n, sampleRate);
    }
  }

  /**
   * detect_onsets_inhouse: a failed load gives (0.0, []); otherwise the
   * duration is samples / rate and the onsets are the times of the flux
   * peaks of the loaded signal's spectrum, every one strictly inside the
   * track, in strictly increasing order.
   */
  method DetectOnsetsInhouse(decoded: Option<Decoded>, frameSize: nat, hopSize: nat, thresholdFactor: real,
                             analyze: seq<real> -> seq<real>, stdDev: seq<real> -> real)
    returns (duration: real, onsets: seq<real>)
    requires frameSize > 0 && hopSize > 0
    requires decoded.Some? ==> decoded.value.sampleRate > 0
    requires decoded.Some? && |decoded.value.samples| > 0 ==> |decoded.value.samples| >= frameSize
    requires forall f: seq<real> :: |f| == frameSize ==> |analyze(f)| == frameSize / 2 + 1
    ensures AudioLoader(decoded).None? ==> duration == 0.0 && onsets == []
    ensures AudioLoader(decoded).Some? ==>
      duration == |decoded.value.samples| as real / decoded.value.sampleRate as real
    ensures AudioLoader(decoded).Some? ==>
      var l := AudioLoader(decoded).value;
      var flux := CalculateFlux(Spectra(l.signal, frameSize, hopSize, analyze));
      onsets == FramesToSec(FindPeaks(flux, Threshold(flux, thresholdFactor, stdDev(flux))), l.sampleRate, hopSize)
    ensures forall k :: 0 <= k < |onsets| ==> 0.0 < onsets[k] < duration
    ensures StrictlyIncreasing(onsets)
  {
    var loaded := AudioLoader(decoded);
    if loaded.None? {
      return 0.0, [];
    }
    var signal, samplerate := loaded.value.signal, loaded.value.sampleRate;
    duration := |signal| as real / samplerate as real;
    var spectra := WindowFft(signal, frameSize, hopSize, analyze);
    SpectraRectangular(signal, frameSize, hopSize, analyze);
    var flux := CalculateFlux(spectra);
    var framePeaks := FindPeaks(flux, Threshold(flux, thresholdFactor, stdDev(flux)));
    onsets := FramesToSec(framePeaks, samplerate, hopSize);
    FramesToSecMonotone(framePeaks, samplerate, hopSize);
    OnsetsInsideTrack(framePeaks, |spectra|, |signal|, frameSize, hopSize, samplerate);
  }

  /**
   * detect_onsets_inhouse called with its default arguments: frames of 2048
   * samples (1025 spectrum bins each), a hop of 512 samples and threshold
   * factor 1.25.
   */
  method DetectOnsetsInhouseWithDefaults(decoded: Option<Decoded>, analyze: seq<real> -> seq<real>, stdDev: seq<real> -> real)
    returns (duration: real, onsets: seq<real>)
    requires decoded.Some? ==> decoded.value.sampleRate > 0
    requires decoded.Some? && |decoded.value.samples| > 0 ==> |decoded.value.samples| >= DefaultFrameSize
    requires forall f: seq<real> :: |f| == DefaultFrameSize ==> |analyze(f)| == 1025
    ensures AudioLoader(decoded).None? ==> duration == 0.0 && onsets == []
    ensures AudioLoader(decoded).Some? ==>
      duration == |decoded.value.samples| as real / decoded.value.sampleRate as real
    ensures AudioLoader(decoded).Some? ==>
      var l := AudioLoader(decoded).value;
      var flux := CalculateFlux(Spectra(l.signal, DefaultFrameSize, DefaultHopSize, analyze));
      onsets == FramesToSec(FindPeaks(flux, Threshold(flux, InhouseThresholdFactor, stdDev(flux))), l.sampleRate, DefaultHopSize)
    ensures forall k :: 0 <= k < |onsets| ==> 0.0 < onsets[k] < duration
    ensures StrictlyIncreasing(onsets)
  {
    duration, onsets := DetectOnsetsInhouse(decoded, DefaultFrameSize, DefaultHopSize, InhouseThresholdFactor, analyze, stdDev);
  }
}
