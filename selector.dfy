/**
 * The excerpt-selection engine of the sampler: filter the candidate start
 * points (onsets or beats) at which an excerpt still fits in the track, pick
 * one of them, or fall back to a uniformly drawn start; derive an excerpt
 * length from a tempo; and post-process a raw tempo estimate.
 *
 * Randomness is passed in: `pick` is the index `random.choice` would draw
 * from the filtered list, and `f` is the value of `random.random()` in [0, 1)
 * that `random.uniform(0, m)` scales to `f * m`.
 */
module Selector {
  import opened Wrappers

  /** Tempo used whenever detection fails or gives an implausible value. */
  const DefaultBpm: real := 120.0
  const MinBpm: real := 60.0
  const MaxBpm: real := 250.0
  /** The bar formula assumes 4/4 time. */
  const BeatsPerBar: int := 4

  /** An excerpt interval in seconds. */
  datatype Excerpt = Excerpt(start: real, end: real)

  /** An excerpt together with the tempo it was measured against. */
  datatype TempoExcerpt = TempoExcerpt(start: real, end: real, bpm: real)

  /** What the tempo analyser hands back: a failure, or its tempo array and beat times. */
  datatype TempoAnalysis = AnalysisFailed | Analysed(tempo: seq<real>, beatTimes: seq<real>)

  ghost predicate Ascending(s: seq<real>)
  {
    forall i, j :: 0 <= i < j < |s| ==> s[i] <= s[j]
  }

  /** A candidate at which an excerpt of `length` seconds still ends inside a track of `duration` seconds. */
  predicate Feasible(c: real, length: real, duration: real)
  {
    c <= duration - length
  }

  /** The list comprehension that keeps the feasible candidates, in order. */
  function ValidStarts(candidates: seq<real>, length: real, duration: real): (valid: seq<real>)
    ensures |valid| <= |candidates|
    ensures forall c :: c in valid <==> c in candidates && Feasible(c, length, duration)
  {
    if candidates == [] then []
    else
      var rest := ValidStarts(candidates[1..], length, duration);
      if Feasible(candidates[0], length, duration) then [candidates[0]] + rest else rest
  }

  /**
   * Every feasible value keeps its multiplicity and every other value is gone,
   * so a uniform choice of index favours no position of the input.
   */
  lemma {:induction false} ValidStartsCounts(candidates: seq<real>, length: real, duration: real, c: real)
    ensures multiset(ValidStarts(candidates, length, duration))[c] ==
      if Feasible(c, length, duration) then multiset(candidates)[c] else 0
  {
    if candidates != [] {
      assert candidates == [candidates[0]] + candidates[1..];
      ValidStartsCounts(candidates[1..], length, duration, c);
    }
  }

  /** Filtering distributes over concatenation: the relative order of the kept candidates is that of the input. */
  lemma {:induction false} ValidStartsAppend(a: seq<real>, b: seq<real>, length: real, duration: real)
    ensures ValidStarts(a + b, length, duration) == ValidStarts(a, length, duration) + ValidStarts(b, length, duration)
  {
    if a != [] {
      assert (a + b)[1..] == a[1..] + b;
      ValidStartsAppend(a[1..], b, length, duration);
    } else {
      assert a + b == b;
    }
  }

  /** An ascending onset list or beat grid stays ascending after filtering. */
  lemma {:induction false} ValidStartsAscending(candidates: seq<real>, length: real, duration: real)
    requires Ascending(candidates)
    ensures Ascending(ValidStarts(candidates, length, duration))
  {
    if candidates != [] {
      ValidStartsAscending(candidates[1..], length, duration);
      var rest := ValidStarts(candidates[1..], length, duration);
      if Feasible(candidates[0], length, duration) {
        var v := [candidates[0]] + rest;
        forall i, j | 0 <= i < j < |v|
          ensures v[i] <= v[j]
        {
          assert v[j] == rest[j - 1] && rest[j - 1] in rest;
          var k :| 0 <= k < |candidates[1..]| && candidates[1..][k] == v[j];
          if i == 0 {
            assert candidates[0] <= candidates[k + 1];
          } else {
            assert v[i] == rest[i - 1];
          }
        }
      }
    }
  }

  /** The index `random.choice` draws lies inside the filtered list whenever that list is non-empty. */
  predicate PickFits(candidates: seq<real>, length: real, duration: real, pick: nat)
  {
    ValidStarts(candidates, length, duration) != [] ==> pick < |ValidStarts(candidates, length, duration)|
  }

  /**
   * choose_excerpt_from_onsets: None exactly when no onset is feasible;
   * otherwise an excerpt that starts on a feasible onset and ends inside the track.
   */
  function ChooseExcerptFromOnsets(onsets: seq<real>, length: real, duration: real, pick: nat): (r: Option<Excerpt>)
    requires PickFits(onsets, length, duration, pick)
    ensures r.None? <==> forall o :: o in onsets ==> !Feasible(o, length, duration)
    ensures r.Some? ==> r.value.start in onsets && r.value.start <= duration - length
    ensures r.Some? ==> r.value.end == r.value.start + length && r.value.end <= duration
  {
    var valid := ValidStarts(onsets, length, duration);
    if valid == [] then None
    else
      assert valid[0] in valid && valid[pick] in valid;
      var chosen := valid[pick];
      Some(Excerpt(chosen, chosen + length))
  }

  /** Every feasible onset is the start of the excerpt for some draw of the index. */
  lemma EveryFeasibleOnsetChoosable(onsets: seq<real>, length: real, duration: real, o: real)
    requires o in onsets && Feasible(o, length, duration)
    ensures exists pick: nat :: (PickFits(onsets, length, duration, pick) &&
      ChooseExcerptFromOnsets(onsets, length, duration, pick) == Some(Excerpt(o, o + length)))
  {
    var valid := ValidStarts(onsets, length, duration);
    var k :| 0 <= k < |valid| && valid[k] == o;
    assert PickFits(onsets, length, duration, k);
    assert ChooseExcerptFromOnsets(onsets, length, duration, k) == Some(Excerpt(o, o + length));
  }

  /** When every onset is non-negative and the length positive, a chosen excerpt satisfies 0 <= start < end <= duration. */
  lemma ChosenExcerptInsideTrack(onsets: seq<real>, length: real, duration: real, pick: nat)
    requires PickFits(onsets, length, duration, pick)
    requires forall o :: o in onsets ==> o >= 0.0
    requires length > 0.0
    ensures var r := ChooseExcerptFromOnsets(onsets, length, duration, pick);
      r.Some? ==> 0.0 <= r.value.start < r.value.end <= duration
  {
  }

  /** max(0, duration - length): the latest start the fallback may draw. */
  function MaxStart(duration: real, length: real): (m: real)
    ensures m >= 0.0 && m >= duration - length
    ensures m == 0.0 || m == duration - length
  {
    if duration - length > 0.0 then duration - length else 0.0
  }

  lemma NonNegativeProduct(a: real, b: real)
    requires a >= 0.0 && b >= 0.0
    ensures a * b >= 0.0
  {
  }

  lemma PositiveQuotient(a: real, b: real)
    requires a > 0.0 && b > 0.0
    ensures a / b > 0.0
  {
  }

  /**
   * fallback_random_excerpt: start drawn uniformly from [0, max(0, duration - length)],
   * end = start + length. The length is NOT clamped to the duration: a track
   * shorter than the excerpt gives start 0 and an end past the track.
   */
  function FallbackRandomExcerpt(duration: real, length: real, f: real): (r: Excerpt)
    requires 0.0 <= f < 1.0
    ensures 0.0 <= r.start <= MaxStart(duration, length)
    ensures r.end - r.start == length
    ensures length <= duration ==> r.end <= duration
    ensures length >= duration ==> r.start == 0.0 && r.end == length
  {
    var maxStart := MaxStart(duration, length);
    var start := 0.0 + (maxStart - 0.0) * f;
    assert start <= maxStart by {
      assert maxStart - start == maxStart * (1.0 - f);
      assert 1.0 - f > 0.0;
      NonNegativeProduct(maxStart, 1.0 - f);
    }
    Excerpt(start, start + length)
  }

  /** The fallback reaches every start in [0, max(0, duration - length)) for some draw. */
  lemma FallbackCoversRange(duration: real, length: real, s: real)
    requires 0.0 <= s < MaxStart(duration, length)
    ensures exists f :: 0.0 <= f < 1.0 && FallbackRandomExcerpt(duration, length, f).start == s
  {
    var m := MaxStart(duration, length);
    var f := s / m;
    assert f < 1.0 by {
      assert m / m == 1.0;
      assert (m - s) / m == m / m - s / m;
      PositiveQuotient(m - s, m);
    }
    assert FallbackRandomExcerpt(duration, length, f).start == s;
  }

  /** The unclamped fallback: a 15-second excerpt of a 10-second track ends at 15 seconds. */
  lemma FallbackOverrunsShortTrack(f: real)
    requires 0.0 <= f < 1.0
    ensures FallbackRandomExcerpt(10.0, 15.0, f) == Excerpt(0.0, 15.0)
  {
  }

  /** calculate_excerpt_length_from_bars: num_bars bars of 4 beats at `bpm` beats per minute, in seconds. */
  function ExcerptLengthFromBars(bpm: real, numBars: int): (length: real)
    requires bpm != 0.0
    ensures length * bpm == (BeatsPerBar * numBars * 60) as real
    ensures bpm > 0.0 && numBars > 0 ==> length > 0.0
  {
    var totalBeats := BeatsPerBar * numBars;
    (totalBeats * 60) as real / bpm
  }

  /** Two bars at 120 bpm last four seconds. */
  lemma TwoBarsAt120Bpm()
    ensures ExcerptLengthFromBars(120.0, 2) == 4.0
  {
  }

  /** choose_random_excerpt_manual: an onset-aligned excerpt of a fixed length, with the fallback iff no onset is feasible. */
  function ChooseRandomExcerptManual(duration: real, onsets: seq<real>, length: real, pick: nat, f: real): (r: Excerpt)
    requires PickFits(onsets, length, duration, pick)
    requires 0.0 <= f < 1.0
    ensures r.end - r.start == length
    ensures (forall o :: o in onsets ==> !Feasible(o, length, duration)) ==> r == FallbackRandomExcerpt(duration, length, f)
    ensures (exists o :: o in onsets && Feasible(o, length, duration)) ==>
      r.start in onsets && r.start <= duration - length && r.end <= duration
  {
    var randomExcerpt := ChooseExcerptFromOnsets(onsets, length, duration, pick);
    if randomExcerpt.None? then FallbackRandomExcerpt(duration, length, f)
    else randomExcerpt.value
  }

  /** choose_random_excerpt_bars: an onset-aligned excerpt `numBars` bars long; the tempo is returned unchanged. */
  function ChooseRandomExcerptBars(duration: real, onsets: seq<real>, bpm: real, numBars: int, pick: nat, f: real): (r: TempoExcerpt)
    requires bpm != 0.0
    requires PickFits(onsets, ExcerptLengthFromBars(bpm, numBars), duration, pick)
    requires 0.0 <= f < 1.0
    ensures r.bpm == bpm
    ensures r.end - r.start == ExcerptLengthFromBars(bpm, numBars)
    ensures var length := ExcerptLengthFromBars(bpm, numBars);
      (forall o :: o in onsets ==> !Feasible(o, length, duration)) ==>
        Excerpt(r.start, r.end) == FallbackRandomExcerpt(duration, length, f)
    ensures var length := ExcerptLengthFromBars(bpm, numBars);
      (exists o :: o in onsets && Feasible(o, length, duration)) ==>
        r.start in onsets && r.start <= duration - length && r.end <= duration
  {
    var length := ExcerptLengthFromBars(bpm, numBars);
    var randomExcerpt := ChooseExcerptFromOnsets(onsets, length, duration, pick);
    if randomExcerpt.None? then
      var e := FallbackRandomExcerpt(duration, length, f);
      TempoExcerpt(e.start, e.end, bpm)
    else
      TempoExcerpt(randomExcerpt.value.start, randomExcerpt.value.end, bpm)
  }

  /**
   * choose_random_excerpt_beats: like the bar strategy, but the candidates are
   * the beat grid, filtered by the same feasibility rule.
   */
  function ChooseRandomExcerptBeats(duration: real, beats: seq<real>, bpm: real, numBars: int, pick: nat, f: real): (r: TempoExcerpt)
    requires bpm != 0.0
    requires PickFits(beats, ExcerptLengthFromBars(bpm, numBars), duration, pick)
    requires 0.0 <= f < 1.0
    ensures r.bpm == bpm
    ensures r.end - r.start == ExcerptLengthFromBars(bpm, numBars)
    ensures var length := ExcerptLengthFromBars(bpm, numBars);
      (forall b :: b in beats ==> !Feasible(b, length, duration)) ==>
        Excerpt(r.start, r.end) == FallbackRandomExcerpt(duration, length, f)
    ensures var length := ExcerptLengthFromBars(bpm, numBars);
      (exists b :: b in beats && Feasible(b, length, duration)) ==>
        r.start in beats && r.start <= duration - length && r.end <= duration
  {
    var length := ExcerptLengthFromBars(bpm, numBars);
    var validBeats := ValidStarts(beats, length, duration);
    if validBeats == [] then
      var e := FallbackRandomExcerpt(duration, length, f);
      TempoExcerpt(e.start, e.end, bpm)
    else
      assert validBeats[0] in validBeats && validBeats[pick] in validBeats;
      var chosen := validBeats[pick];
      TempoExcerpt(chosen, chosen + length, bpm)
  }

  /** The scenario of a 10-second track with onsets at 2, 4 and 8 seconds and a 3-second excerpt. */
  lemma FeasibilityScenario()
    ensures ValidStarts([2.0, 4.0, 8.0], 3.0, 10.0) == [2.0, 4.0]
  {
  }

  /** The first entry of the tempo array, or 120 when it is empty. */
  function FirstTempo(tempo: seq<real>): real
  {
    if |tempo| > 0 then tempo[0] else DefaultBpm
  }

  /**
   * The post-processing of detect_bpm: a failed analysis, an empty tempo
   * array or a tempo outside [60, 250] all give 120; any other tempo is kept.
   */
  function DetectBpm(analysis: TempoAnalysis): (bpm: real)
    ensures MinBpm <= bpm <= MaxBpm
    ensures analysis.AnalysisFailed? ==> bpm == DefaultBpm
    ensures analysis.Analysed? && |analysis.tempo| == 0 ==> bpm == DefaultBpm
    ensures analysis.Analysed? && |analysis.tempo| > 0 ==>
      if MinBpm <= analysis.tempo[0] <= MaxBpm then bpm == analysis.tempo[0] else bpm == DefaultBpm
  {
    match analysis
    case AnalysisFailed => DefaultBpm
    case Analysed(tempo, _) =>
      var bpm := FirstTempo(tempo);
      if bpm < MinBpm || bpm > MaxBpm then DefaultBpm else bpm
  }

  /**
   * The post-processing of detect_beats: a failed analysis gives no beats and
   * 120; otherwise the beat times and the first tempo, which is NOT clamped.
   */
  function DetectBeats(analysis: TempoAnalysis): (r: (seq<real>, real))
    ensures analysis.AnalysisFailed? ==> r == ([], DefaultBpm)
    ensures analysis.Analysed? ==> r.0 == analysis.beatTimes
    ensures analysis.Analysed? && |analysis.tempo| > 0 ==> r.1 == analysis.tempo[0]
    ensures analysis.Analysed? && |analysis.tempo| == 0 ==> r.1 == DefaultBpm
  {
    match analysis
    case AnalysisFailed => ([], DefaultBpm)
    case Analysed(tempo, beatTimes) => (beatTimes, FirstTempo(tempo))
  }

  /** Unlike detect_bpm, detect_beats passes a zero tempo through, which the bar formula cannot divide by. */
  lemma DetectBeatsKeepsZeroTempo(beatTimes: seq<real>)
    ensures DetectBeats(Analysed([0.0], beatTimes)).1 == 0.0
    ensures DetectBpm(Analysed([0.0], beatTimes)) == DefaultBpm
  {
  }
}
