/** Threshold-crossing peak detection (`getIntersectionX`, `calculatePeaks`)
    and clipping of peaks to a section (`filterPeaksToSection`), src/utils.ts. */
module Peaks {
  import opened Common

  /** The threshold calculatePeaks uses when none is given. */
  const DefaultThreshold: real := 1.0

  /** The `end` value that marks a peak as still open. */
  const Open: real := -1.0

  /** getIntersectionX: the x at which the line through (x1, y1) and
      (x2, y2) reaches `threshold`. Only strict crossings call it, so the two
      values differ. */
  function IntersectionX(x1: real, y1: real, x2: real, y2: real, threshold: real): real
    requires y1 != y2
  {
    x1 + (x2 - x1) * ((threshold - y1) / (y2 - y1))
  }

  /** The interpolated point lies on the segment's line at the threshold. */
  lemma IntersectionOnLine(x1: real, y1: real, x2: real, y2: real, threshold: real)
    requires y1 != y2 && x1 != x2
    ensures var x := IntersectionX(x1, y1, x2, y2, threshold);
      y1 + (y2 - y1) * ((x - x1) / (x2 - x1)) == threshold
  {
    var f := (threshold - y1) / (y2 - y1);
    var x := IntersectionX(x1, y1, x2, y2, threshold);
    assert x - x1 == (x2 - x1) * f;
    assert (x - x1) / (x2 - x1) == f;
    assert (y2 - y1) * f == threshold - y1;
  }

  /** For a strict crossing between increasing times, the interpolated time
      lies strictly between the two sample times. */
  lemma IntersectionBetween(x1: real, y1: real, x2: real, y2: real, threshold: real)
    requires x1 < x2
    requires (y1 < threshold < y2) || (y1 > threshold > y2)
    ensures x1 < IntersectionX(x1, y1, x2, y2, threshold) < x2
  {
    var f := (threshold - y1) / (y2 - y1);
    if y1 < y2 {
      FractionInUnit(threshold - y1, y2 - y1);
    } else {
      assert f == (y1 - threshold) / (y1 - y2);
      FractionInUnit(y1 - threshold, y1 - y2);
    }
    ScaleBelow(x1, x2, f);
  }

  lemma FractionInUnit(a: real, b: real)
    requires 0.0 < a < b
    ensures 0.0 < a / b < 1.0
  {
    var q := a / b;
    assert q * b == a;
    if q >= 1.0 {
      assert false;
    }
  }

  lemma ScaleBelow(x1: real, x2: real, f: real)
    requires x1 < x2 && 0.0 < f < 1.0
    ensures x1 < x1 + (x2 - x1) * f < x2
  {
    var g := 1.0 - f;
    assert (x2 - x1) * g > 0.0;
    assert (x2 - x1) * f + (x2 - x1) * g == x2 - x1;
  }

  /** From below to strictly above the threshold. */
  predicate Rising(prev: Datum, curr: Datum, threshold: real)
  {
    prev.value < threshold && curr.value > threshold
  }

  /** From above to strictly below the threshold. */
  predicate Falling(prev: Datum, curr: Datum, threshold: real)
  {
    prev.value > threshold && curr.value < threshold
  }

  /** The last peak, if there is one and its end is still the sentinel. */
  predicate LastIsOpen(peaks: seq<Peak>)
  {
    |peaks| > 0 && peaks[|peaks| - 1].end == Open
  }

  /** Give the last peak the end `x` and the matching length. */
  function CloseLast(peaks: seq<Peak>, x: real): seq<Peak>
    requires |peaks| > 0
  {
    var last := peaks[|peaks| - 1];
    peaks[|peaks| - 1 := Peak(last.start, x, x - last.start)]
  }

  /** One iteration of the scan over the pair (prev, curr): a rising edge
      pushes an open peak; otherwise a falling edge closes the last peak if it
      is still open. */
  function Step(peaks: seq<Peak>, prev: Datum, curr: Datum, threshold: real): seq<Peak>
  {
    if Rising(prev, curr, threshold) then
      peaks + [Peak(IntersectionX(prev.time, prev.value, curr.time, curr.value, threshold), Open, 0.0)]
    else if Falling(prev, curr, threshold) && LastIsOpen(peaks) then
      CloseLast(peaks, IntersectionX(prev.time, prev.value, curr.time, curr.value, threshold))
    else peaks
  }

  /** The peak list once the scan has looked at samples `0..n-1`. */
  function ScanTo(data: seq<Datum>, threshold: real, n: int): seq<Peak>
    requires 1 <= n <= |data|
  {
    if n == 1 then
      (if data[0].value > threshold then [Peak(data[0].time, Open, 0.0)] else [])
    else Step(ScanTo(data, threshold, n - 1), data[n - 2], data[n - 1], threshold)
  }

  /** After the scan, an open last peak is clamped to the last sample time. */
  function ClampLast(peaks: seq<Peak>, lastX: real): seq<Peak>
  {
    if LastIsOpen(peaks) then CloseLast(peaks, lastX) else peaks
  }

  /** What calculatePeaks returns. */
  function PeaksOf(data: seq<Datum>, threshold: real): seq<Peak>
  {
    if |data| == 0 then [] else ClampLast(ScanTo(data, threshold, |data|), data[|data| - 1].time)
  }

  /** calculatePeaks: pushes onto `peaks` and updates the last element in place. */
  method CalculatePeaks(data: seq<Datum>, threshold: real := DefaultThreshold) returns (peaks: seq<Peak>)
    ensures |data| == 0 ==> peaks == []
    ensures peaks == PeaksOf(data, threshold)
  {
    peaks := [];
    var len := |data|;
    if len == 0 {
      return;
    }
    if data[0].value > threshold {
      peaks := peaks + [Peak(data[0].time, Open, 0.0)];
    }
    var i := 1;
    while i < len
      invariant 1 <= i <= len
      invariant peaks == ScanTo(data, threshold, i)
    {
      var prev := data[i - 1];
      var curr := data[i];
      if prev.value < threshold && curr.value > threshold {
        var intersection := IntersectionX(prev.time, prev.value, curr.time, curr.value, threshold);
        peaks := peaks + [Peak(intersection, Open, 0.0)];
      } else if prev.value > threshold && curr.value < threshold {
        if |peaks| > 0 && peaks[|peaks| - 1].end == Open {
          var lastPeak := peaks[|peaks| - 1];
          var intersection := IntersectionX(prev.time, prev.value, curr.time, curr.value, threshold);
          peaks := peaks[|peaks| - 1 := lastPeak.(end := intersection, length := intersection - lastPeak.start)];
        }
      }
      i := i + 1;
    }
    if |peaks| > 0 && peaks[|peaks| - 1].end == Open {
      var lastPeak := peaks[|peaks| - 1];
      var lastX := data[len - 1].time;
      peaks := peaks[|peaks| - 1 := lastPeak.(end := lastX, length := lastX - lastPeak.start)];
    }
  }

  // ---------------------------------------------------------------------
  // Which peaks there are: one per rising edge, plus one at the start

  /** Reference definition of the peak starts: the first sample time if the
      series starts above the threshold, then the interpolated time of every
      strict rising crossing, in order. */
  function CrossingStarts(data: seq<Datum>, threshold: real, n: int): seq<real>
    requires 1 <= n <= |data|
  {
    if n == 1 then
      (if data[0].value > threshold then [data[0].time] else [])
    else
      CrossingStarts(data, threshold, n - 1)
      + (if Rising(data[n - 2], data[n - 1], threshold)
         then [IntersectionX(data[n - 2].time, data[n - 2].value, data[n - 1].time, data[n - 1].value, threshold)]
         else [])
  }

  function StartsOf(peaks: seq<Peak>): (s: seq<real>)
    ensures |s| == |peaks|
  {
    seq(|peaks|, i requires 0 <= i < |peaks| => peaks[i].start)
  }

  lemma {:induction false} ScanStarts(data: seq<Datum>, threshold: real, n: int)
    requires 1 <= n <= |data|
    ensures StartsOf(ScanTo(data, threshold, n)) == CrossingStarts(data, threshold, n)
  {
    if n > 1 {
      ScanStarts(data, threshold, n - 1);
    }
  }

  /** The peaks calculatePeaks returns start exactly at the reference starts:
      so there is one peak per strict rising crossing (plus one when the
      series starts above the threshold), and a sample exactly at the
      threshold never opens one. */
  lemma PeakStartsAreCrossings(data: seq<Datum>, threshold: real)
    requires |data| > 0
    ensures StartsOf(PeaksOf(data, threshold)) == CrossingStarts(data, threshold, |data|)
  {
    ScanStarts(data, threshold, |data|);
  }

  /** A series that starts above the threshold has a first peak starting at
      its first sample time. */
  lemma StartAboveOpensAtFirstSample(data: seq<Datum>, threshold: real)
    requires |data| > 0 && data[0].value > threshold
    ensures var peaks := PeaksOf(data, threshold);
      |peaks| > 0 && peaks[0].start == data[0].time
  {
    var peaks := PeaksOf(data, threshold);
    PeakStartsAreCrossings(data, threshold);
    StartsKeepPrefix(data, threshold, 1, |data|);
    var cs := CrossingStarts(data, threshold, |data|);
    assert CrossingStarts(data, threshold, 1) == [data[0].time];
    assert cs[0] == data[0].time;
    assert StartsOf(peaks)[0] == peaks[0].start;
  }

  lemma {:induction false} StartsKeepPrefix(data: seq<Datum>, threshold: real, n: int, m: int)
    requires 1 <= n <= m <= |data|
    ensures CrossingStarts(data, threshold, n) <= CrossingStarts(data, threshold, m)
    decreases m
  {
    if n < m {
      StartsKeepPrefix(data, threshold, n, m - 1);
    }
  }

  lemma {:induction false} ScanEmptyAtOrBelowThreshold(data: seq<Datum>, threshold: real, n: int)
    requires 1 <= n <= |data|
    requires forall i :: 0 <= i < |data| ==> data[i].value <= threshold
    ensures ScanTo(data, threshold, n) == []
  {
    if n > 1 {
      ScanEmptyAtOrBelowThreshold(data, threshold, n - 1);
    }
  }

  /** A series that never rises above the threshold has no peaks. */
  lemma NoPeaksAtOrBelowThreshold(data: seq<Datum>, threshold: real)
    requires forall i :: 0 <= i < |data| ==> data[i].value <= threshold
    ensures PeaksOf(data, threshold) == []
  {
    if |data| > 0 {
      ScanEmptyAtOrBelowThreshold(data, threshold, |data|);
    }
  }

  // ---------------------------------------------------------------------
  // Only the last peak is ever touched

  /** Every peak but the last one is frozen: no later step of the scan, nor
      the final clamp, changes it. */
  lemma {:induction false} EarlierPeaksFrozen(data: seq<Datum>, threshold: real, n: int, m: int)
    requires 1 <= n <= m <= |data|
    ensures |ScanTo(data, threshold, n)| <= |ScanTo(data, threshold, m)|
    ensures forall j :: 0 <= j < |ScanTo(data, threshold, n)| - 1 ==>
      ScanTo(data, threshold, m)[j] == ScanTo(data, threshold, n)[j]
    ensures m == |data| ==> forall j :: 0 <= j < |ScanTo(data, threshold, n)| - 1 ==>
      PeaksOf(data, threshold)[j] == ScanTo(data, threshold, n)[j]
    decreases m
  {
    if n < m {
      EarlierPeaksFrozen(data, threshold, n, m - 1);
    }
  }

  /** A peak that has been closed keeps its place at the end of the scan or
      behind it, and no later step or the final clamp changes it: a falling
      edge only closes a last peak that is still open. */
  lemma {:induction false} ClosedPeakFrozen(data: seq<Datum>, threshold: real, n: int, m: int, j: int)
    requires 1 <= n <= m <= |data|
    requires 0 <= j < |ScanTo(data, threshold, n)| && ScanTo(data, threshold, n)[j].end != Open
    ensures j < |ScanTo(data, threshold, m)| && ScanTo(data, threshold, m)[j] == ScanTo(data, threshold, n)[j]
    ensures m == |data| ==> PeaksOf(data, threshold)[j] == ScanTo(data, threshold, n)[j]
    decreases m
  {
    if n < m {
      ClosedPeakFrozen(data, threshold, n, m - 1, j);
    }
  }

  /** The final clamp in terms of the finished scan, the form in which
      `LastPeakClosed` and `PeakEndsAreFallingCrossingsOrClamp` use it. */
  lemma ClampClosesOpenLast(data: seq<Datum>, threshold: real)
    requires |data| > 0
    ensures var scan := ScanTo(data, threshold, |data|);
      var lastX := data[|data| - 1].time;
      var peaks := PeaksOf(data, threshold);
      (LastIsOpen(scan) ==>
        peaks == scan[..|scan| - 1] + [Peak(scan[|scan| - 1].start, lastX, lastX - scan[|scan| - 1].start)]) &&
      (!LastIsOpen(scan) ==> peaks == scan)
  {
  }

  /** The last peak returned is closed, unless the clamp value itself is the
      sentinel, i.e. the last sample's time is -1. */
  lemma LastPeakClosed(data: seq<Datum>, threshold: real)
    requires |data| > 0 && PeaksOf(data, threshold) != []
    ensures var peaks := PeaksOf(data, threshold);
      peaks[|peaks| - 1].end != Open || data[|data| - 1].time == Open
  {
    ClampClosesOpenLast(data, threshold);
  }

  /** Reference for where a closed end comes from: the interpolated time of a
      strict falling edge, met while peak `j` was the last peak and open. */
  ghost predicate ClosedByFallingEdge(data: seq<Datum>, threshold: real, j: int, e: real)
  {
    0 <= j &&
    exists i :: 1 <= i < |data| && Falling(data[i - 1], data[i], threshold)
      && |ScanTo(data, threshold, i)| == j + 1 && ScanTo(data, threshold, i)[j].end == Open
      && e == IntersectionX(data[i - 1].time, data[i - 1].value, data[i].time, data[i].value, threshold)
  }

  lemma {:induction false} ScanEnds(data: seq<Datum>, threshold: real, n: int)
    requires 1 <= n <= |data|
    ensures forall j :: 0 <= j < |ScanTo(data, threshold, n)| && ScanTo(data, threshold, n)[j].end != Open ==>
      ClosedByFallingEdge(data, threshold, j, ScanTo(data, threshold, n)[j].end)
  {
    if n > 1 {
      ScanEnds(data, threshold, n - 1);
      var before := ScanTo(data, threshold, n - 1);
      var after := ScanTo(data, threshold, n);
      var prev, curr := data[n - 2], data[n - 1];
      forall j | 0 <= j < |after| && after[j].end != Open
        ensures ClosedByFallingEdge(data, threshold, j, after[j].end)
      {
        if j < |before| && after[j] == before[j] {
        } else {
          // only the step's close of the open last peak sets a new end
          assert !Rising(prev, curr, threshold) && Falling(prev, curr, threshold) && LastIsOpen(before);
          assert j == |before| - 1;
          assert after[j].end == IntersectionX(prev.time, prev.value, curr.time, curr.value, threshold);
          assert data[(n - 1) - 1] == prev;
        }
      }
    }
  }

  /** Every closed end calculatePeaks returns is either the interpolated time
      of a strict falling edge met while that peak was last and open, or, for
      the last peak only, the last sample's time from the final clamp. */
  lemma PeakEndsAreFallingCrossingsOrClamp(data: seq<Datum>, threshold: real)
    requires |data| > 0
    ensures var peaks := PeaksOf(data, threshold);
      forall j :: 0 <= j < |peaks| && peaks[j].end != Open ==>
        ClosedByFallingEdge(data, threshold, j, peaks[j].end)
        || (j == |peaks| - 1 && peaks[j].end == data[|data| - 1].time)
  {
    var scan := ScanTo(data, threshold, |data|);
    var peaks := PeaksOf(data, threshold);
    ScanEnds(data, threshold, |data|);
    ClampClosesOpenLast(data, threshold);
    forall j | 0 <= j < |peaks| && peaks[j].end != Open
      ensures ClosedByFallingEdge(data, threshold, j, peaks[j].end)
        || (j == |peaks| - 1 && peaks[j].end == data[|data| - 1].time)
    {
      if j < |peaks| - 1 && LastIsOpen(scan) {
        assert peaks[j] == scan[..|scan| - 1][j] == scan[j];
      }
    }
  }

  /** A peak that is still open when a later peak opens is never closed: a
      falling edge only closes the last peak and the clamp only the last one,
      so it keeps the sentinel end in the result. */
  lemma EarlierPeakStaysOpen(data: seq<Datum>, threshold: real, n: int, j: int)
    requires 1 <= n <= |data|
    requires 0 <= j < |ScanTo(data, threshold, n)| - 1 && ScanTo(data, threshold, n)[j].end == Open
    ensures j < |PeaksOf(data, threshold)| - 1
    ensures PeaksOf(data, threshold)[j] == ScanTo(data, threshold, n)[j] && PeaksOf(data, threshold)[j].end == Open
  {
    EarlierPeaksFrozen(data, threshold, n, |data|);
    ClampClosesOpenLast(data, threshold);
  }

  /** On this series the first peak is left by a sample exactly at the
      threshold, so it is still open when the second peak starts and keeps the
      sentinel end and a zero length. */
  lemma ThresholdTouchLeavesPeakOpen()
    ensures PeaksOf([Datum(0.0, 0.0), Datum(1.0, 2.0), Datum(2.0, 1.0), Datum(3.0, 0.0), Datum(4.0, 2.0), Datum(5.0, 0.0)], 1.0)
         == [Peak(0.5, Open, 0.0), Peak(3.5, 4.5, 1.0)]
  {
    var d := [Datum(0.0, 0.0), Datum(1.0, 2.0), Datum(2.0, 1.0), Datum(3.0, 0.0), Datum(4.0, 2.0), Datum(5.0, 0.0)];
    assert ScanTo(d, 1.0, 2) == [Peak(0.5, Open, 0.0)];
    assert ScanTo(d, 1.0, 4) == [Peak(0.5, Open, 0.0)];
    assert ScanTo(d, 1.0, 5) == [Peak(0.5, Open, 0.0), Peak(3.5, Open, 0.0)];
    assert ScanTo(d, 1.0, 6) == [Peak(0.5, Open, 0.0), Peak(3.5, 4.5, 1.0)];
  }

  /** The series of the repository's peak test: besides the two peaks the
      test expects, the still-rising end opens a third peak that the clamp
      closes at the last sample. */
  lemma RepositoryTestSeriesHasThreePeaks()
    ensures PeaksOf([Datum(0.0, 0.0), Datum(1.0, 1.0), Datum(2.0, 0.0), Datum(3.0, 1.0), Datum(4.0, 0.0), Datum(5.0, 1.0)], 0.5)
         == [Peak(0.5, 1.5, 1.0), Peak(2.5, 3.5, 1.0), Peak(4.5, 5.0, 0.5)]
  {
    var d := [Datum(0.0, 0.0), Datum(1.0, 1.0), Datum(2.0, 0.0), Datum(3.0, 1.0), Datum(4.0, 0.0), Datum(5.0, 1.0)];
    assert ScanTo(d, 0.5, 2) == [Peak(0.5, Open, 0.0)];
    assert ScanTo(d, 0.5, 3) == [Peak(0.5, 1.5, 1.0)];
    assert ScanTo(d, 0.5, 4) == [Peak(0.5, 1.5, 1.0), Peak(2.5, Open, 0.0)];
    assert ScanTo(d, 0.5, 5) == [Peak(0.5, 1.5, 1.0), Peak(2.5, 3.5, 1.0)];
    assert ScanTo(d, 0.5, 6) == [Peak(0.5, 1.5, 1.0), Peak(2.5, 3.5, 1.0), Peak(4.5, Open, 0.0)];
  }

  /** On this series, which starts above the threshold and re-enters it
      through a strict rising edge before the end, the first peak opens at the
      first sample and the last is clamped to the last one. */
  lemma OpenAtBothEnds()
    ensures PeaksOf([Datum(0.0, 2.0), Datum(1.0, 1.0), Datum(2.0, 1.0), Datum(3.0, 1.0), Datum(4.0, 2.0), Datum(5.0, 2.0)], 1.5)
         == [Peak(0.0, 0.5, 0.5), Peak(3.5, 5.0, 1.5)]
  {
    var d := [Datum(0.0, 2.0), Datum(1.0, 1.0), Datum(2.0, 1.0), Datum(3.0, 1.0), Datum(4.0, 2.0), Datum(5.0, 2.0)];
    assert ScanTo(d, 1.5, 2) == [Peak(0.0, 0.5, 0.5)];
    assert ScanTo(d, 1.5, 4) == [Peak(0.0, 0.5, 0.5)];
    assert ScanTo(d, 1.5, 5) == [Peak(0.0, 0.5, 0.5), Peak(3.5, Open, 0.0)];
    assert ScanTo(d, 1.5, 6) == [Peak(0.0, 0.5, 0.5), Peak(3.5, Open, 0.0)];
  }

  lemma {:induction false} ScanAboveThroughout(data: seq<Datum>, threshold: real, n: int)
    requires 1 <= n <= |data|
    requires forall i :: 0 <= i < |data| ==> data[i].value > threshold
    ensures ScanTo(data, threshold, n) == [Peak(data[0].time, Open, 0.0)]
  {
    if n > 1 {
      ScanAboveThroughout(data, threshold, n - 1);
      assert data[n - 2].value > threshold && data[n - 1].value > threshold;
    }
  }

  /** A series that never leaves the region above the threshold is one peak,
      from the first sample's time to the last one's. */
  lemma AboveThroughoutIsOnePeak(data: seq<Datum>, threshold: real)
    requires |data| > 0
    requires forall i :: 0 <= i < |data| ==> data[i].value > threshold
    ensures var t0, t1 := data[0].time, data[|data| - 1].time;
      PeaksOf(data, threshold) == [Peak(t0, t1, t1 - t0)]
  {
    ScanAboveThroughout(data, threshold, |data|);
  }

  // ---------------------------------------------------------------------
  // Shape of every peak

  /** A peak's length matches its ends, unless it was never closed (sentinel
      end, zero length). */
  predicate LengthMatches(p: Peak)
  {
    p.length == p.end - p.start || (p.end == Open && p.length == 0.0)
  }

  lemma {:induction false} ScanLengthsMatch(data: seq<Datum>, threshold: real, n: int)
    requires 1 <= n <= |data|
    ensures forall j :: 0 <= j < |ScanTo(data, threshold, n)| ==> LengthMatches(ScanTo(data, threshold, n)[j])
  {
    if n > 1 {
      ScanLengthsMatch(data, threshold, n - 1);
    }
  }

  /** Every peak calculatePeaks returns has `length == end - start`, except a
      peak left open, which keeps the sentinel end and length 0. */
  lemma PeakLengthsMatch(data: seq<Datum>, threshold: real)
    ensures forall j :: 0 <= j < |PeaksOf(data, threshold)| ==> LengthMatches(PeaksOf(data, threshold)[j])
  {
    if |data| > 0 {
      ScanLengthsMatch(data, threshold, |data|);
    }
  }

  /** Sample times that strictly increase. */
  predicate IncreasingTimes(data: seq<Datum>)
  {
    forall i :: 0 <= i < |data| - 1 ==> data[i].time < data[i + 1].time
  }

  /** Every peak of the scan so far starts no later than the current sample,
      and a closed one ends between its start and the current sample. */
  predicate PeaksBehind(peaks: seq<Peak>, now: real)
  {
    forall j :: 0 <= j < |peaks| ==>
      peaks[j].start <= now && (peaks[j].end != Open ==> peaks[j].start <= peaks[j].end <= now)
  }

  lemma {:induction false} ScanPeaksBehind(data: seq<Datum>, threshold: real, n: int)
    requires 1 <= n <= |data| && IncreasingTimes(data)
    ensures PeaksBehind(ScanTo(data, threshold, n), data[n - 1].time)
  {
    if n > 1 {
      ScanPeaksBehind(data, threshold, n - 1);
      var prev, curr := data[n - 2], data[n - 1];
      assert prev.time < curr.time;
      if Rising(prev, curr, threshold) || Falling(prev, curr, threshold) {
        IntersectionBetween(prev.time, prev.value, curr.time, curr.value, threshold);
      }
    }
  }

  /** On strictly increasing times, every peak that was closed (by a falling
      edge or by the final clamp) has `start <= end` and a non-negative
      length equal to `end - start`. */
  lemma ClosedPeaksAreIntervals(data: seq<Datum>, threshold: real)
    requires IncreasingTimes(data)
    ensures forall j :: 0 <= j < |PeaksOf(data, threshold)| && PeaksOf(data, threshold)[j].end != Open ==>
      var p := PeaksOf(data, threshold)[j];
      p.start <= p.end && p.length == p.end - p.start && p.length >= 0.0
  {
    if |data| > 0 {
      ScanPeaksBehind(data, threshold, |data|);
      PeakLengthsMatch(data, threshold);
    }
  }

  // ---------------------------------------------------------------------
  // filterPeaksToSection

  /** Whether `x` lies in the closed window of `s`. */
  predicate InSection(x: real, s: Section)
  {
    s.start <= x <= s.end
  }

  /** The flatMap callback: keep a peak inside the section, cut a peak that
      sticks out on one side at the section bound, drop the rest. */
  function ClipPeak(p: Peak, s: Section): (r: seq<Peak>)
    ensures |r| <= 1
    ensures r == [] <==> !InSection(p.start, s) && !InSection(p.end, s)
  {
    var startIncluded := p.start >= s.start && p.start <= s.end;
    var endIncluded := p.end <= s.end && p.end >= s.start;
    if endIncluded && startIncluded then [p]
    else if !endIncluded && startIncluded then [p.(end := s.end, length := s.end - p.start)]
    else if endIncluded && !startIncluded then [p.(start := s.start, length := p.end - s.start)]
    else []
  }

  /** filterPeaksToSection. */
  function FilterPeaksToSection(peaks: seq<Peak>, s: Section): (r: seq<Peak>)
  {
    if peaks == [] then [] else ClipPeak(peaks[0], s) + FilterPeaksToSection(peaks[1..], s)
  }

  /** Clipping works peak by peak: the output for a concatenation is the
      concatenation of the outputs, so input order is kept and each input
      peak yields its own clip. */
  lemma {:induction false} FilterAppend(a: seq<Peak>, b: seq<Peak>, s: Section)
    ensures FilterPeaksToSection(a + b, s) == FilterPeaksToSection(a, s) + FilterPeaksToSection(b, s)
  {
    if a == [] {
      assert a + b == b;
    } else {
      assert (a + b)[1..] == a[1..] + b;
      FilterAppend(a[1..], b, s);
    }
  }

  /** At most one output peak per input peak. */
  lemma {:induction false} FilterNoLonger(peaks: seq<Peak>, s: Section)
    ensures |FilterPeaksToSection(peaks, s)| <= |peaks|
  {
    if peaks != [] {
      FilterNoLonger(peaks[1..], s);
    }
  }

  /** A peak that encloses the whole section on both sides is dropped. */
  lemma EnclosingPeakDropped(p: Peak, s: Section)
    requires p.start < s.start && s.end < p.end
    ensures FilterPeaksToSection([p], s) == []
  {
    assert [p][1..] == [];
  }

  /** Peaks that already lie in the section come back unchanged: clipping to
      a section that spans all of them is the identity. */
  lemma {:induction false} FilterKeepsPeaksInside(peaks: seq<Peak>, s: Section)
    requires forall j :: 0 <= j < |peaks| ==> InSection(peaks[j].start, s) && InSection(peaks[j].end, s)
    ensures FilterPeaksToSection(peaks, s) == peaks
  {
    if peaks != [] {
      FilterKeepsPeaksInside(peaks[1..], s);
    }
  }

  /** Interval peaks that survive clipping lie in the section. */
  predicate ClippedInside(r: seq<Peak>, s: Section)
  {
    forall j :: 0 <= j < |r| ==>
      InSection(r[j].start, s) && InSection(r[j].end, s) && r[j].start <= r[j].end && r[j].length == r[j].end - r[j].start
  }

  lemma ClipOutputInside(p: Peak, s: Section)
    requires p.start <= p.end && p.length == p.end - p.start
    ensures ClippedInside(ClipPeak(p, s), s)
  {
  }

  /** A peak with `start <= end` and a matching length comes out, if at all,
      inside the section with `start <= end` and a matching length. */
  lemma {:induction false} FilterOutputInside(peaks: seq<Peak>, s: Section)
    requires forall j :: 0 <= j < |peaks| ==> peaks[j].start <= peaks[j].end && peaks[j].length == peaks[j].end - peaks[j].start
    ensures ClippedInside(FilterPeaksToSection(peaks, s), s)
  {
    if peaks != [] {
      FilterOutputInside(peaks[1..], s);
      ClipOutputInside(peaks[0], s);
      var a, b := ClipPeak(peaks[0], s), FilterPeaksToSection(peaks[1..], s);
      assert forall j :: 0 <= j < |a + b| ==> (a + b)[j] == if j < |a| then a[j] else b[j - |a|];
    }
  }

  /** A peak reaches into the section when one of its ends lies in it. */
  predicate Reaches(p: Peak, s: Section)
  {
    InSection(p.start, s) || InSection(p.end, s)
  }

  /** The part of a peak that lies in the section, with its length. */
  function Overlap(p: Peak, s: Section): Peak
  {
    var a := RMax(p.start, s.start);
    var b := RMin(p.end, s.end);
    Peak(a, b, b - a)
  }

  /** Reference definition: every peak that reaches into the section is cut
      down to its overlap with it, and the others are dropped. */
  function Overlaps(peaks: seq<Peak>, s: Section): seq<Peak>
  {
    if peaks == [] then []
    else (if Reaches(peaks[0], s) then [Overlap(peaks[0], s)] else []) + Overlaps(peaks[1..], s)
  }

  /** For an interval peak the four cases of the clip are one rule: a peak
      reaching into the section becomes its overlap with it. */
  lemma ClipIsIntersection(p: Peak, s: Section)
    requires p.start <= p.end && p.length == p.end - p.start
    ensures Reaches(p, s) ==> ClipPeak(p, s) == [Overlap(p, s)]
    ensures !Reaches(p, s) ==> ClipPeak(p, s) == []
  {
  }

  /** filterPeaksToSection on interval peaks is the reference `Overlaps`. */
  lemma {:induction false} FilterIsIntersection(peaks: seq<Peak>, s: Section)
    requires forall j :: 0 <= j < |peaks| ==> peaks[j].start <= peaks[j].end && peaks[j].length == peaks[j].end - peaks[j].start
    ensures FilterPeaksToSection(peaks, s) == Overlaps(peaks, s)
  {
    if peaks != [] {
      ClipIsIntersection(peaks[0], s);
      FilterIsIntersection(peaks[1..], s);
    }
  }

  /** A peak left open by the detector (sentinel end -1) that starts inside a
      section lying in non-negative time is stretched to the section's end. */
  lemma StaleOpenPeakStretchedToSectionEnd(start: real, s: Section)
    requires 0.0 <= s.start <= start <= s.end
    ensures FilterPeaksToSection([Peak(start, Open, 0.0)], s) == [Peak(start, s.end, s.end - start)]
  {
    assert [Peak(start, Open, 0.0)][1..] == [];
  }

  /** The repository's clipping test: the first peak lies before the section
      and is dropped, the second is cut at the section start, the third is
      kept and the fourth is cut at the section end. */
  lemma RepositoryClipExample()
    ensures FilterPeaksToSection([Peak(-1.5, -0.5, 1.0), Peak(0.5, 1.5, 1.0), Peak(2.5, 3.5, 1.0), Peak(4.5, 5.5, 1.0)],
                                 Section("bob", 0.7, 5.0))
         == [Peak(0.7, 1.5, 0.8), Peak(2.5, 3.5, 1.0), Peak(4.5, 5.0, 0.5)]
  {
    var s := Section("bob", 0.7, 5.0);
    var ps := [Peak(-1.5, -0.5, 1.0), Peak(0.5, 1.5, 1.0), Peak(2.5, 3.5, 1.0), Peak(4.5, 5.5, 1.0)];
    assert ps == [ps[0]] + ([ps[1]] + ([ps[2]] + [ps[3]]));
    FilterAppend([ps[0]], [ps[1]] + ([ps[2]] + [ps[3]]), s);
    FilterAppend([ps[1]], [ps[2]] + [ps[3]], s);
    FilterAppend([ps[2]], [ps[3]], s);
    assert [ps[0]][1..] == [] && [ps[1]][1..] == [] && [ps[2]][1..] == [] && [ps[3]][1..] == [];
  }
}
