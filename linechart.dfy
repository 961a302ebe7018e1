/** The time-axis tick values of the line chart (`generateTickValues`,
    src/charts/LineChart.tsx). */
module LineChart {
  import opened Common

  /** `Math.ceil`. */
  function Ceil(x: real): (c: int)
    ensures x <= c as real < x + 1.0
  {
    -((-x).Floor)
  }

  /** Rounding toward zero, as JavaScript's `%` divides. */
  function Trunc(x: real): (t: int)
    ensures x >= 0.0 ==> t as real <= x < t as real + 1.0
    ensures x < 0.0 ==> t as real - 1.0 < x <= t as real
  {
    if x >= 0.0 then x.Floor else -((-x).Floor)
  }

  /** JavaScript's `%` on numbers: the remainder has the sign of `x`. */
  function JsFmod(x: real, y: real): real
    requires y != 0.0
  {
    x - y * (Trunc(x / y) as real)
  }

  /** The tick spacing in seconds, chosen by how many minutes the extent
      spans. */
  function TickStep(e0: real, e1: real): (step: real)
    ensures step == 15.0 || step == 30.0 || step == 60.0 || step == 120.0
  {
    var minutes := (e1 - e0) / 60.0;
    if minutes > 16.0 then 120.0
    else if minutes > 8.0 then 60.0
    else if minutes > 4.0 then 30.0
    else 15.0
  }

  /** The length handed to `Array(...)` in the chosen branch. */
  function TickCount(e0: real, e1: real): int
  {
    var minutes := (e1 - e0) / 60.0;
    if minutes > 16.0 then Ceil(minutes / 2.0) + 1
    else if minutes > 8.0 then Ceil(minutes) + 1
    else if minutes > 4.0 then Ceil(minutes * 2.0) + 1
    else Ceil(minutes * 4.0) + 1
  }

  /** `e0 - (e0 % step)`: the first raw tick. */
  function FirstTick(e0: real, step: real): real
    requires step > 0.0
  {
    e0 - JsFmod(e0, step)
  }

  /** Tick `i` of the raw, evenly spaced series. */
  function TickAt(first: real, step: real, i: int): real
  {
    first + (i as real) * step
  }

  /** `rawTicks()`, or None where `Array(n)` throws for a negative `n`. */
  function RawTicks(e0: real, e1: real): (r: Option<seq<real>>)
    ensures r.None? <==> TickCount(e0, e1) < 0
    ensures r.Some? ==> |r.value| == TickCount(e0, e1)
  {
    var step := TickStep(e0, e1);
    var n := TickCount(e0, e1);
    if n < 0 then None
    else Some(seq(n, i requires 0 <= i < n => TickAt(FirstTick(e0, step), step, i)))
  }

  /** The `filter` to the extent, ends included. */
  function WithinExtent(ticks: seq<real>, e0: real, e1: real): (r: seq<real>)
    ensures forall t :: t in r <==> t in ticks && e0 <= t <= e1
  {
    if ticks == [] then []
    else (if e0 <= ticks[0] && e1 >= ticks[0] then [ticks[0]] else []) + WithinExtent(ticks[1..], e0, e1)
  }

  /** generateTickValues for the extent `[e0, e1]`. */
  function GenerateTickValues(e0: real, e1: real): (r: Option<seq<real>>)
    ensures r.Some? ==> forall t :: t in r.value ==> e0 <= t <= e1
  {
    var raw := RawTicks(e0, e1);
    if raw.None? then None else Some(WithinExtent(raw.value, e0, e1))
  }

  /** Every branch asks for `ceil(range / step) + 1` ticks. */
  lemma TickCountIsRangeOverStep(e0: real, e1: real)
    ensures TickCount(e0, e1) == Ceil((e1 - e0) / TickStep(e0, e1)) + 1
  {
    var minutes := (e1 - e0) / 60.0;
    assert minutes / 2.0 == (e1 - e0) / 120.0;
    assert minutes * 2.0 == (e1 - e0) / 30.0;
    assert minutes * 4.0 == (e1 - e0) / 15.0;
  }

  /** The only failure: an extent reversed by at least half a minute makes
      the raw length negative. */
  lemma FailsIffReversedByHalfMinute(e0: real, e1: real)
    ensures GenerateTickValues(e0, e1).None? <==> e1 - e0 <= -30.0
  {
    TickCountIsRangeOverStep(e0, e1);
    if e1 - e0 <= -30.0 {
      assert TickStep(e0, e1) == 15.0;
      assert (e1 - e0) / 15.0 <= -2.0;
    } else if e1 - e0 < 0.0 {
      assert TickStep(e0, e1) == 15.0;
      assert (e1 - e0) / 15.0 > -2.0;
    } else {
      assert (e1 - e0) / TickStep(e0, e1) >= 0.0;
    }
  }

  lemma MulMonotone(a: real, b: real, s: real)
    requires a <= b && s > 0.0
    ensures a * s <= b * s
  {
    assert b * s - a * s == (b - a) * s;
  }

  lemma MulStrict(a: real, b: real, s: real)
    requires a < b && s > 0.0
    ensures a * s < b * s
  {
    assert b * s - a * s == (b - a) * s;
  }

  /** `k` whole steps. */
  function Times(k: int, step: real): real
  {
    (k as real) * step
  }

  lemma TimesSucc(k: int, step: real)
    ensures Times(k + 1, step) == Times(k, step) + step
    ensures Times(k - 1, step) == Times(k, step) - step
  {
  }

  /** The first raw tick is a multiple of the step, less than one step
      away from `e0`. */
  lemma FirstTickBracket(e0: real, step: real)
    requires step > 0.0
    ensures FirstTick(e0, step) == Times(Trunc(e0 / step), step)
    ensures Times(Trunc(e0 / step) - 1, step) < e0 < Times(Trunc(e0 / step) + 1, step)
  {
    var u := e0 / step;
    var k := Trunc(u);
    assert e0 == u * step;
    assert (k - 1) as real < u < (k + 1) as real;
    MulStrict((k - 1) as real, u, step);
    MulStrict(u, (k + 1) as real, step);
    assert Times(k + 1, step) == ((k + 1) as real) * step;
    assert e0 < Times(k + 1, step);
  }

  /** For a non-negative start, the first raw tick is the largest multiple
      of the step not above it. */
  lemma FirstTickIsLargestMultipleBelow(e0: real, step: real, k: int)
    requires step > 0.0 && e0 >= 0.0
    ensures FirstTick(e0, step) == Times(Trunc(e0 / step), step)
    ensures FirstTick(e0, step) <= e0 < FirstTick(e0, step) + step
    ensures Times(k, step) <= e0 ==> Times(k, step) <= FirstTick(e0, step)
  {
    FirstTickBracket(e0, step);
    var u := e0 / step;
    var t := Trunc(u);
    assert e0 == u * step;
    MulMonotone(t as real, u, step);
    assert FirstTick(e0, step) == (t as real) * step <= u * step;
    TimesSucc(t, step);
    if Times(k, step) <= e0 && k > t {
      MulMonotone((t + 1) as real, k as real, step);
      assert false;
    }
  }

  /** Raw ticks grow by one step each. */
  lemma TickAtIncreasing(first: real, step: real, i: int, j: int)
    requires step > 0.0 && i < j
    ensures TickAt(first, step, i) < TickAt(first, step, j)
  {
    MulStrict(i as real, j as real, step);
  }

  /** Raw tick `i` from a multiple of the step is again a multiple. */
  lemma TickAtIsMultiple(k0: int, step: real, i: int)
    ensures TickAt(Times(k0, step), step, i) == Times(k0 + i, step)
  {
    assert ((k0 + i) as real) * step == (k0 as real) * step + (i as real) * step;
  }

  predicate StrictlyIncreasing(s: seq<real>)
  {
    forall i, j :: 0 <= i < j < |s| ==> s[i] < s[j]
  }

  lemma {:induction false} WithinExtentKeepsOrder(ticks: seq<real>, e0: real, e1: real)
    requires StrictlyIncreasing(ticks)
    ensures StrictlyIncreasing(WithinExtent(ticks, e0, e1))
  {
    if ticks != [] {
      var rest := WithinExtent(ticks[1..], e0, e1);
      WithinExtentKeepsOrder(ticks[1..], e0, e1);
      forall t | t in rest ensures ticks[0] < t {
        var j :| 0 <= j < |ticks[1..]| && ticks[1..][j] == t;
        assert ticks[j + 1] == t;
      }
      if e0 <= ticks[0] && e1 >= ticks[0] {
        var r := [ticks[0]] + rest;
        assert WithinExtent(ticks, e0, e1) == r;
        forall i, j | 0 <= i < j < |r| ensures r[i] < r[j] {
          assert r[j] == rest[j - 1] && rest[j - 1] in rest;
          if i > 0 {
            assert r[i] == rest[i - 1];
          }
        }
      } else {
        assert WithinExtent(ticks, e0, e1) == rest;
      }
    }
  }

  /** The returned ticks are strictly increasing. */
  lemma TicksStrictlyIncreasing(e0: real, e1: real)
    requires GenerateTickValues(e0, e1).Some?
    ensures StrictlyIncreasing(GenerateTickValues(e0, e1).value)
  {
    var step := TickStep(e0, e1);
    var raw := RawTicks(e0, e1).value;
    forall i, j | 0 <= i < j < |raw| ensures raw[i] < raw[j] {
      TickAtIncreasing(FirstTick(e0, step), step, i, j);
    }
    WithinExtentKeepsOrder(raw, e0, e1);
  }

  /** A whole number of steps. */
  ghost predicate MultipleOf(t: real, step: real)
  {
    exists k: int :: t == Times(k, step)
  }

  /** Every returned tick is a multiple of the step. */
  lemma ReturnedTicksAreMultiples(e0: real, e1: real, t: real)
    requires GenerateTickValues(e0, e1).Some? && t in GenerateTickValues(e0, e1).value
    ensures MultipleOf(t, TickStep(e0, e1))
  {
    var step := TickStep(e0, e1);
    var raw := RawTicks(e0, e1).value;
    FirstTickBracket(e0, step);
    var k0 := Trunc(e0 / step);
    var i :| 0 <= i < |raw| && raw[i] == t;
    TickAtIsMultiple(k0, step, i);
    assert t == Times(k0 + i, step);
  }

  /** No multiple inside the extent lies below the first raw tick. */
  lemma MultipleNotBeforeFirst(e0: real, step: real, k0: int, k: int)
    requires step > 0.0 && Times(k0 - 1, step) < e0 <= Times(k, step)
    ensures k >= k0
  {
    if k < k0 {
      MulMonotone(k as real, (k0 - 1) as real, step);
      assert false;
    }
  }

  /** No multiple inside the extent lies past the last raw tick. */
  lemma MultipleNotAfterLast(e0: real, e1: real, step: real, k0: int, c: int, k: int)
    requires step > 0.0 && e0 < Times(k0 + 1, step)
    requires (e1 - e0) / step <= c as real
    requires Times(k, step) <= e1
    ensures k <= k0 + c
  {
    var range := e1 - e0;
    assert range == (range / step) * step;
    MulMonotone(range / step, c as real, step);
    assert ((k0 + 1 + c) as real) * step == Times(k0 + 1, step) + (c as real) * step;
    if k > k0 + c {
      MulMonotone((k0 + 1 + c) as real, k as real, step);
      assert false;
    }
  }

  /** Every multiple of the step inside the extent is returned. */
  lemma EveryMultipleReturned(e0: real, e1: real, k: int)
    requires e0 <= e1
    requires e0 <= Times(k, TickStep(e0, e1)) <= e1
    ensures GenerateTickValues(e0, e1).Some?
    ensures Times(k, TickStep(e0, e1)) in GenerateTickValues(e0, e1).value
  {
    var step := TickStep(e0, e1);
    var c := Ceil((e1 - e0) / step);
    TickCountIsRangeOverStep(e0, e1);
    FirstTickBracket(e0, step);
    var k0 := Trunc(e0 / step);
    MultipleNotBeforeFirst(e0, step, k0, k);
    MultipleNotAfterLast(e0, e1, step, k0, c, k);
    var raw := RawTicks(e0, e1).value;
    TickAtIsMultiple(k0, step, k - k0);
    assert raw[k - k0] == Times(k, step);
  }

  /** The returned ticks are exactly the multiples of the step in the
      extent. */
  lemma TicksAreExactlyMultiplesInExtent(e0: real, e1: real, t: real)
    requires e0 <= e1
    ensures GenerateTickValues(e0, e1).Some?
    ensures t in GenerateTickValues(e0, e1).value <==> MultipleOf(t, TickStep(e0, e1)) && e0 <= t <= e1
  {
    FailsIffReversedByHalfMinute(e0, e1);
    if t in GenerateTickValues(e0, e1).value {
      ReturnedTicksAreMultiples(e0, e1, t);
    }
    if MultipleOf(t, TickStep(e0, e1)) && e0 <= t <= e1 {
      var k: int :| t == Times(k, TickStep(e0, e1));
      EveryMultipleReturned(e0, e1, k);
    }
  }
}
