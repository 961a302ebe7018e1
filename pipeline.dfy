/** The per-cell signal pipeline of `processCell` (src/utils.ts): optional
    division by the mean of the lead samples, then a trailing boxcar average
    kept as a running window sum, then time stamps `i * samplingRate`. */
module Pipeline {
  import opened Common

  /** The divisor applied to every raw sample: the mean of the first
      `min(len, baselineSamples)` values when normalisation is on and that
      count is positive, and 1 otherwise. */
  function BaselineDenominator(data: seq<real>, baselineAdjust: bool, baselineSamples: int): real
  {
    if baselineAdjust && |data| > 0 then
      var limit := Min(|data|, baselineSamples);
      if limit > 0 then Sum(data[..limit]) / (limit as real) else 1.0
    else 1.0
  }

  /** The series after baseline division. */
  function Normalised(data: seq<real>, denominator: real): (v: seq<real>)
    requires denominator != 0.0
    ensures |v| == |data|
  {
    seq(|data|, i requires 0 <= i < |data| => data[i] / denominator)
  }

  /** First index of the trailing window of width `convolution` ending at `i`. */
  function WindowLo(i: int, convolution: int): (lo: int)
    requires convolution >= 1
    ensures 0 <= lo
    ensures i >= 0 ==> lo <= i && i + 1 - lo == Min(i + 1, convolution)
  {
    Max(0, i - convolution + 1)
  }

  /** Mean of the trailing window of `v` that ends at index `i`. */
  function TrailingMean(v: seq<real>, i: int, convolution: int): real
    requires 0 <= i < |v| && convolution >= 1
  {
    Sum(v[WindowLo(i, convolution)..i + 1]) / (Min(i + 1, convolution) as real)
  }

  /** Sample `i` of the output: stamped `i * samplingRate`, valued by its window mean. */
  function SampleAt(v: seq<real>, i: int, convolution: int, samplingRate: real): Datum
    requires 0 <= i < |v| && convolution >= 1
  {
    Datum((i as real) * samplingRate, TrailingMean(v, i, convolution))
  }

  /** The series processCell returns, stated sample by sample. */
  function Processed(data: seq<real>, baselineAdjust: bool, baselineSamples: int, convolution: int, samplingRate: real): seq<Datum>
    requires convolution >= 1
    requires BaselineDenominator(data, baselineAdjust, baselineSamples) != 0.0
  {
    var v := Normalised(data, BaselineDenominator(data, baselineAdjust, baselineSamples));
    seq(|data|, i requires 0 <= i < |data| => SampleAt(v, i, convolution, samplingRate))
  }

  /** Step 1 of processCell: one loop sums the lead samples, capped at the
      series length, and their mean becomes the divisor. */
  method ComputeBaselineDenominator(rawData: seq<real>, baselineAdjust: bool, baselineSamples: int)
    returns (baselineDenominator: real)
    ensures baselineDenominator == BaselineDenominator(rawData, baselineAdjust, baselineSamples)
  {
    var len := |rawData|;
    baselineDenominator := 1.0;
    if baselineAdjust && len > 0 {
      var sum := 0.0;
      var limit := Min(len, baselineSamples);
      var i := 0;
      while i < limit
        invariant 0 <= i <= Max(0, limit)
        invariant sum == Sum(rawData[..i])
      {
        assert rawData[..i + 1][..i] == rawData[..i];
        sum := sum + rawData[i];
        i := i + 1;
      }
      baselineDenominator := if limit > 0 then sum / (limit as real) else 1.0;
    }
  }

  /** processCell: a baseline loop, then one O(N) pass that keeps the
      window sum by adding the new normalised sample and subtracting the one
      that fell out, and writes each datum into a pre-allocated array. */
  method ProcessCell(cell: Cell, baselineAdjust: bool, baselineSamples: int, convolution: int, samplingRate: real)
    returns (r: seq<Datum>)
    requires convolution >= 1
    requires BaselineDenominator(cell.data, baselineAdjust, baselineSamples) != 0.0
    ensures |r| == |cell.data|
    ensures forall i :: 0 <= i < |r| ==> r[i].time == (i as real) * samplingRate
    ensures r == Processed(cell.data, baselineAdjust, baselineSamples, convolution, samplingRate)
  {
    var rawData := cell.data;
    var len := |rawData|;

    var baselineDenominator := ComputeBaselineDenominator(rawData, baselineAdjust, baselineSamples);

    ghost var v := Normalised(rawData, baselineDenominator);
    var result := new Datum[len];
    var currentWindowSum := 0.0;
    var i := 0;
    while i < len
      invariant 0 <= i <= len
      invariant currentWindowSum == Sum(v[WindowLo(i - 1, convolution)..i])
      invariant forall j :: 0 <= j < i ==> result[j] == SampleAt(v, j, convolution, samplingRate)
    {
      var value := rawData[i] / baselineDenominator;
      assert value == v[i];
      WindowStep(v, i, convolution);
      currentWindowSum := currentWindowSum + value;
      if i >= convolution {
        var oldVal := rawData[i - convolution] / baselineDenominator;
        assert oldVal == v[i - convolution];
        currentWindowSum := currentWindowSum - oldVal;
      }
      assert currentWindowSum == Sum(v[WindowLo(i, convolution)..i + 1]);
      var count := Min(i + 1, convolution);
      var average := currentWindowSum / (count as real);
      assert average == TrailingMean(v, i, convolution);
      result[i] := Datum((i as real) * samplingRate, average);
      i := i + 1;
    }
    r := result[..];
    assert v == Normalised(rawData, BaselineDenominator(rawData, baselineAdjust, baselineSamples));
  }

  /** Sliding the window one sample to the right adds the new sample and,
      once the window is full, drops the one that fell out. */
  lemma WindowStep(v: seq<real>, i: int, convolution: int)
    requires 0 <= i < |v| && convolution >= 1
    ensures Sum(v[WindowLo(i, convolution)..i + 1])
         == Sum(v[WindowLo(i - 1, convolution)..i]) + v[i] - (if i >= convolution then v[i - convolution] else 0.0)
  {
    var lo := WindowLo(i - 1, convolution);
    assert v[lo..i + 1][..i - lo] == v[lo..i];
    if i >= convolution {
      SumCons(v[lo..i + 1]);
      assert v[lo..i + 1][1..] == v[lo + 1..i + 1];
    }
  }

  /** Mean of a non-empty run whose terms lie in `[lo, hi]` lies in `[lo, hi]`. */
  lemma MeanWithin(s: seq<real>, lo: real, hi: real)
    requires |s| > 0
    requires forall i :: 0 <= i < |s| ==> lo <= s[i] <= hi
    ensures lo <= Sum(s) / (|s| as real) <= hi
  {
    var n := |s| as real;
    SumBounds(s, lo, hi);
    assert Sum(s) / n >= lo by { assert Sum(s) >= n * lo; }
    assert Sum(s) / n <= hi by { assert Sum(s) <= n * hi; }
  }

  /** With normalisation off and a window of one sample, processCell hands
      back the raw values unchanged. */
  lemma NoSmoothingIsIdentity(data: seq<real>, baselineSamples: int, samplingRate: real)
    ensures var p := Processed(data, false, baselineSamples, 1, samplingRate);
      |p| == |data| && forall i :: 0 <= i < |p| ==> p[i].value == data[i]
  {
    var p := Processed(data, false, baselineSamples, 1, samplingRate);
    var v := Normalised(data, 1.0);
    forall i | 0 <= i < |p| ensures p[i].value == data[i] {
      assert v[i..i + 1] == [v[i]];
      assert Sum([v[i]]) == Sum([]) + v[i];
    }
  }

  /** Every output value is the mean of its window, so it lies between the
      least and the greatest normalised sample. */
  lemma SmoothedWithinBounds(data: seq<real>, baselineAdjust: bool, baselineSamples: int, convolution: int, samplingRate: real, lo: real, hi: real)
    requires convolution >= 1
    requires BaselineDenominator(data, baselineAdjust, baselineSamples) != 0.0
    requires forall i :: 0 <= i < |data| ==> lo <= data[i] / BaselineDenominator(data, baselineAdjust, baselineSamples) <= hi
    ensures var p := Processed(data, baselineAdjust, baselineSamples, convolution, samplingRate);
      forall i :: 0 <= i < |p| ==> lo <= p[i].value <= hi
  {
    var d := BaselineDenominator(data, baselineAdjust, baselineSamples);
    var v := Normalised(data, d);
    var p := Processed(data, baselineAdjust, baselineSamples, convolution, samplingRate);
    forall i | 0 <= i < |p| ensures lo <= p[i].value <= hi {
      var w := v[WindowLo(i, convolution)..i + 1];
      MeanWithin(w, lo, hi);
    }
  }

  /** A constant raw signal passes through unchanged when normalisation is
      off, whatever the window width. */
  lemma ConstantSignalIsFixed(data: seq<real>, x: real, baselineSamples: int, convolution: int, samplingRate: real)
    requires convolution >= 1
    requires forall i :: 0 <= i < |data| ==> data[i] == x
    ensures var p := Processed(data, false, baselineSamples, convolution, samplingRate);
      forall i :: 0 <= i < |p| ==> p[i].value == x
  {
    SmoothedWithinBounds(data, false, baselineSamples, convolution, samplingRate, x, x);
  }

  /** Baseline division scales the lead samples so that their mean is one:
      the ratio (delta F over F) units of the output. */
  lemma {:induction false} LeadSamplesAverageOne(data: seq<real>, baselineSamples: int)
    requires |data| > 0 && baselineSamples > 0
    requires BaselineDenominator(data, true, baselineSamples) != 0.0
    ensures var limit := Min(|data|, baselineSamples);
      Sum(Normalised(data, BaselineDenominator(data, true, baselineSamples))[..limit]) == limit as real
  {
    var limit := Min(|data|, baselineSamples);
    var d := BaselineDenominator(data, true, baselineSamples);
    SumScaled(data[..limit], d);
    assert Normalised(data, d)[..limit] == seq(limit, i requires 0 <= i < limit => data[..limit][i] / d);
  }

  /** Dividing every term by `d` divides the sum by `d`. */
  lemma {:induction false} SumScaled(s: seq<real>, d: real)
    requires d != 0.0
    ensures Sum(seq(|s|, i requires 0 <= i < |s| => s[i] / d)) == Sum(s) / d
  {
    var t := seq(|s|, i requires 0 <= i < |s| => s[i] / d);
    if s != [] {
      var s' := s[..|s| - 1];
      SumScaled(s', d);
      assert t[..|t| - 1] == seq(|s'|, i requires 0 <= i < |s'| => s'[i] / d);
    }
  }
}
