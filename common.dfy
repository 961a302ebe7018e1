/** Record shapes shared by the whole tool, failure wrappers and the
    summation that every numeric component is specified with. */
module Common {

  datatype Option<+T> = None | Some(value: T)

  datatype Result<+T, +E> = Ok(value: T) | Err(error: E)

  /** One sample of a series: `[time, value]` in the source. */
  datatype Datum = Datum(time: real, value: real)

  /** A peak interval. The detector marks a peak that is still open with
      `end == -1`, so `-1` is a sentinel and not a time. */
  datatype Peak = Peak(start: real, end: real, length: real)

  /** A named time window. */
  datatype Section = Section(name: string, start: real, end: real)

  /** A section being edited: any field may still be missing. */
  datatype PartialSection = PartialSection(name: Option<string>, start: Option<real>, end: Option<real>)

  /** A cell of the uploaded slice: its id is its column index in the CSV. */
  datatype Cell = Cell(id: int, name: string, data: seq<real>, baseline: real, excluded: bool)

  function Min(a: int, b: int): int { if a < b then a else b }

  function Max(a: int, b: int): int { if a < b then b else a }

  function RMax(a: real, b: real): real { if a < b then b else a }

  function RMin(a: real, b: real): real { if a < b then a else b }

  /** Sum of a sequence, peeled from the back the way a running sum grows. */
  function Sum(s: seq<real>): real
  {
    if s == [] then 0.0 else Sum(s[..|s| - 1]) + s[|s| - 1]
  }

  /** Peeling the sum from the front gives the same value. */
  lemma {:induction false} SumCons(s: seq<real>)
    requires |s| > 0
    ensures Sum(s) == s[0] + Sum(s[1..])
  {
    if |s| > 1 {
      SumCons(s[..|s| - 1]);
      assert s[..|s| - 1][1..] == s[1..][..|s[1..]| - 1];
    }
  }

  /** A sum over a concatenation is the sum of the sums. */
  lemma {:induction false} SumAppend(a: seq<real>, b: seq<real>)
    ensures Sum(a + b) == Sum(a) + Sum(b)
  {
    if b != [] {
      assert (a + b)[..|a + b| - 1] == a + b[..|b| - 1];
      SumAppend(a, b[..|b| - 1]);
    } else {
      assert a + b == a;
    }
  }

  /** A sum of terms that all lie in `[lo, hi]` lies between `n*lo` and `n*hi`. */
  lemma {:induction false} SumBounds(s: seq<real>, lo: real, hi: real)
    requires forall i :: 0 <= i < |s| ==> lo <= s[i] <= hi
    ensures (|s| as real) * lo <= Sum(s) <= (|s| as real) * hi
  {
    if s != [] {
      SumBounds(s[..|s| - 1], lo, hi);
    }
  }
}
