/** Trapezoidal area of the part of a series above a baseline
    (`integrateSamples`, src/utils.ts). */
module Area {
  import opened Common

  /** A sample with its value replaced by how far it rises above `baseline`,
      never negative. */
  function Excess(d: Datum, baseline: real): (e: Datum)
    ensures e.time == d.time && e.value >= 0.0
    ensures e.value == 0.0 <==> d.value <= baseline
  {
    Datum(d.time, RMax(0.0, d.value - baseline))
  }

  /** The `map` step: every sample clipped against the baseline. */
  function Excesses(samples: seq<Datum>, baseline: real): (e: seq<Datum>)
    ensures |e| == |samples|
  {
    seq(|samples|, i requires 0 <= i < |samples| => Excess(samples[i], baseline))
  }

  /** Area of the trapezoid between two consecutive samples. */
  function Trapezoid(a: Datum, b: Datum): real
  {
    (b.time - a.time) * ((a.value + b.value) / 2.0)
  }

  /** The `reduce` step from index `idx` on with accumulator `acc`: each
      sample that has a successor adds the trapezoid up to it, and the last
      one adds nothing. */
  function ReduceFrom(e: seq<Datum>, idx: nat, acc: real): real
    decreases |e| - idx
  {
    if idx >= |e| then acc
    else
      var next := if idx + 1 < |e| then Some(e[idx + 1]) else None;
      ReduceFrom(e, idx + 1, if next.None? then acc else acc + Trapezoid(e[idx], next.value))
  }

  /** integrateSamples: area in value-times-time units. */
  function IntegrateSamples(samples: seq<Datum>, baseline: real): real
  {
    ReduceFrom(Excesses(samples, baseline), 0, 0.0)
  }

  /** Reference definition: the trapezoidal rule as a sum over consecutive pairs. */
  function TrapezoidSum(e: seq<Datum>): real
  {
    if |e| < 2 then 0.0 else Trapezoid(e[0], e[1]) + TrapezoidSum(e[1..])
  }

  /** Times that never go backwards. */
  predicate NonDecreasingTimes(s: seq<Datum>)
  {
    forall i :: 0 <= i < |s| - 1 ==> s[i].time <= s[i + 1].time
  }

  lemma {:induction false} ReduceFromIsSum(e: seq<Datum>, idx: nat, acc: real)
    requires idx <= |e|
    ensures ReduceFrom(e, idx, acc) == acc + TrapezoidSum(e[idx..])
    decreases |e| - idx
  {
    if idx < |e| {
      ReduceFromIsSum(e, idx + 1, if idx + 1 < |e| then acc + Trapezoid(e[idx], e[idx + 1]) else acc);
      if idx + 1 < |e| {
        assert e[idx..][1..] == e[idx + 1..];
      }
    }
  }

  /** The fold computes the trapezoidal rule over the clipped samples. */
  lemma IntegrateIsTrapezoidRule(samples: seq<Datum>, baseline: real)
    ensures IntegrateSamples(samples, baseline) == TrapezoidSum(Excesses(samples, baseline))
  {
    var e := Excesses(samples, baseline);
    ReduceFromIsSum(e, 0, 0.0);
    assert e[0..] == e;
  }

  /** Fewer than two samples enclose no area. */
  lemma FewerThanTwoSamplesIsZero(samples: seq<Datum>, baseline: real)
    requires |samples| < 2
    ensures IntegrateSamples(samples, baseline) == 0.0
  {
    IntegrateIsTrapezoidRule(samples, baseline);
  }

  lemma {:induction false} TrapezoidSumNonNegative(e: seq<Datum>)
    requires NonDecreasingTimes(e)
    requires forall i :: 0 <= i < |e| ==> e[i].value >= 0.0
    ensures TrapezoidSum(e) >= 0.0
  {
    if |e| >= 2 {
      TrapezoidSumNonNegative(e[1..]);
      assert e[0].time <= e[1].time;
      var w := e[1].time - e[0].time;
      var h := (e[0].value + e[1].value) / 2.0;
      assert w * h >= 0.0;
    }
  }

  /** Over time-ordered samples the area is never negative. */
  lemma AreaNonNegative(samples: seq<Datum>, baseline: real)
    requires NonDecreasingTimes(samples)
    ensures IntegrateSamples(samples, baseline) >= 0.0
  {
    IntegrateIsTrapezoidRule(samples, baseline);
    TrapezoidSumNonNegative(Excesses(samples, baseline));
  }

  lemma {:induction false} TrapezoidSumOfZeros(e: seq<Datum>)
    requires forall i :: 0 <= i < |e| ==> e[i].value == 0.0
    ensures TrapezoidSum(e) == 0.0
  {
    if |e| >= 2 {
      TrapezoidSumOfZeros(e[1..]);
    }
  }

  /** No sample above the baseline means no area, whatever the times. */
  lemma AreaZeroBelowBaseline(samples: seq<Datum>, baseline: real)
    requires forall i :: 0 <= i < |samples| ==> samples[i].value <= baseline
    ensures IntegrateSamples(samples, baseline) == 0.0
  {
    IntegrateIsTrapezoidRule(samples, baseline);
    TrapezoidSumOfZeros(Excesses(samples, baseline));
  }

  /** Splitting a series at a shared sample splits the area. */
  lemma {:induction false} TrapezoidSumSplit(e: seq<Datum>, k: nat)
    requires k < |e|
    ensures TrapezoidSum(e) == TrapezoidSum(e[..k + 1]) + TrapezoidSum(e[k..])
  {
    if k > 0 {
      TrapezoidSumSplit(e[1..], k - 1);
      assert e[1..][..k] == e[..k + 1][1..];
      assert e[1..][k - 1..] == e[k..];
    } else {
      assert e[0..] == e;
    }
  }

  /** The area over a series is the area up to any sample plus the area from it. */
  lemma AreaAdditive(samples: seq<Datum>, baseline: real, k: nat)
    requires k < |samples|
    ensures IntegrateSamples(samples, baseline)
         == IntegrateSamples(samples[..k + 1], baseline) + IntegrateSamples(samples[k..], baseline)
  {
    var e := Excesses(samples, baseline);
    IntegrateIsTrapezoidRule(samples, baseline);
    IntegrateIsTrapezoidRule(samples[..k + 1], baseline);
    IntegrateIsTrapezoidRule(samples[k..], baseline);
    assert Excesses(samples[..k + 1], baseline) == e[..k + 1];
    assert Excesses(samples[k..], baseline) == e[k..];
    TrapezoidSumSplit(e, k);
  }
}
