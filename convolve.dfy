/** Same-length, edge-truncated discrete convolution (src/utils/convolve.ts). */
module Convolve {
  import opened Common

  const OddLengthError: string := "weights array must have an odd length"

  /** A sequence read with zeros outside its bounds. */
  function At(s: seq<real>, j: int): real
  {
    if 0 <= j < |s| then s[j] else 0.0
  }

  /** Sum of `f(k)` for `lo <= k < hi`. */
  function SumRange(f: int -> real, lo: int, hi: int): real
    decreases hi - lo
  {
    if hi <= lo then 0.0 else SumRange(f, lo, hi - 1) + f(hi - 1)
  }

  /** The kernel indices `[kmin, kmax]` used for output `i`: every read of
      the array and of the weights stays in bounds, and a bound is cut short
      only where the array ends. */
  function KernelRange(i: int, al: int, wl: int): (r: (int, int))
    requires 0 < wl && wl % 2 == 1 && 0 <= i < al
    ensures 0 <= r.0 && r.1 <= wl - 1
    ensures r.0 <= r.1
    ensures 0 <= i - wl / 2 + r.0 && i - wl / 2 + r.1 <= al - 1
    ensures r.0 == 0 || i - wl / 2 + r.0 == 0
    ensures r.1 == wl - 1 || i - wl / 2 + r.1 == al - 1
  {
    var offset := wl / 2;
    assert wl == 2 * offset + 1;
    var kmin := if i >= offset then 0 else offset - i;
    var kmax := if i + offset < al then wl - 1 else al - 1 - i + offset;
    (kmin, kmax)
  }

  /** The product the inner loop adds for kernel index `k` at output `i`. */
  function Tap(a: seq<real>, w: seq<real>, i: int): int -> real
  {
    k => At(a, i - |w| / 2 + k) * At(w, k)
  }

  /** Output `i`: the products over the kernel range only. */
  function OutputAt(a: seq<real>, w: seq<real>, i: int): real
    requires |w| % 2 == 1 && 0 <= i < |a|
  {
    var r := KernelRange(i, |a|, |w|);
    SumRange(Tap(a, w, i), r.0, r.1 + 1)
  }

  /** What convolve returns, or the error it throws. */
  function Convolved(a: seq<real>, w: seq<real>): (r: Result<seq<real>, string>)
    ensures r.Err? <==> |w| % 2 != 1
    ensures r.Err? ==> r.error == OddLengthError
    ensures r.Ok? ==> |r.value| == |a|
  {
    if |w| % 2 != 1 then Err(OddLengthError)
    else Ok(seq(|a|, i requires 0 <= i < |a| => OutputAt(a, w, i)))
  }

  /** convolve: one pass over the outputs, each accumulated over its kernel
      range into a pre-allocated array. */
  method Convolve(samples: seq<real>, weights: seq<real>) returns (r: Result<seq<real>, string>)
    ensures r.Err? <==> |weights| % 2 != 1
    ensures r.Ok? ==> |r.value| == |samples|
    ensures r == Convolved(samples, weights)
  {
    if |weights| % 2 != 1 {
      return Err(OddLengthError);
    }
    var al := |samples|;
    var output := new real[al];
    var i := 0;
    while i < al
      invariant 0 <= i <= al
      invariant forall j :: 0 <= j < i ==> output[j] == OutputAt(samples, weights, j)
    {
      AccumulateAt(output, samples, weights, i);
      i := i + 1;
    }
    assert output[..] == Convolved(samples, weights).value;
    r := Ok(output[..]);
  }

  /** The inner loop of convolve: `output[i]` set to zero, then every
      product of the kernel range added to it; no other cell changes. */
  method AccumulateAt(output: array<real>, samples: seq<real>, weights: seq<real>, i: int)
    requires output.Length == |samples| && |weights| % 2 == 1 && 0 <= i < |samples|
    modifies output
    ensures output[i] == OutputAt(samples, weights, i)
    ensures forall j :: 0 <= j < output.Length && j != i ==> output[j] == old(output[j])
  {
    var al := |samples|;
    var wl := |weights|;
    var offset := wl / 2;
    var kmin := if i >= offset then 0 else offset - i;
    var kmax := if i + offset < al then wl - 1 else al - 1 - i + offset;
    assert (kmin, kmax) == KernelRange(i, al, wl);
    output[i] := 0.0;
    var k := kmin;
    while k <= kmax
      invariant kmin <= k <= kmax + 1
      invariant output[i] == SumRange(Tap(samples, weights, i), kmin, k)
      invariant forall j :: 0 <= j < output.Length && j != i ==> output[j] == old(output[j])
    {
      assert 0 <= i - offset + k < al && 0 <= k < wl;
      assert At(samples, i - offset + k) == samples[i - offset + k] && At(weights, k) == weights[k];
      assert Tap(samples, weights, i)(k) == samples[i - offset + k] * weights[k];
      output[i] := output[i] + samples[i - offset + k] * weights[k];
      k := k + 1;
    }
  }

  lemma {:induction false} SumRangeLow(f: int -> real, lo: int, hi: int)
    requires lo < hi
    ensures SumRange(f, lo, hi) == f(lo) + SumRange(f, lo + 1, hi)
    decreases hi - lo
  {
    if lo + 1 < hi {
      SumRangeLow(f, lo, hi - 1);
    }
  }

  /** Terms that are zero at either end do not change a sum. */
  lemma {:induction false} SumRangeTrim(f: int -> real, lo: int, hi: int, p: int, q: int)
    requires lo <= p <= q <= hi
    requires forall k :: lo <= k < p ==> f(k) == 0.0
    requires forall k :: q <= k < hi ==> f(k) == 0.0
    ensures SumRange(f, lo, hi) == SumRange(f, p, q)
    decreases hi - lo
  {
    if q < hi {
      SumRangeTrim(f, lo, hi - 1, p, q);
    } else if lo < p {
      SumRangeLow(f, lo, hi);
      SumRangeTrim(f, lo + 1, hi, p, q);
    }
  }

  /** Reindexing a sum by a constant shift. */
  lemma {:induction false} SumRangeShift(f: int -> real, g: int -> real, lo: int, hi: int, d: int)
    requires forall k :: lo <= k < hi ==> f(k) == g(k + d)
    ensures SumRange(f, lo, hi) == SumRange(g, lo + d, hi + d)
    decreases hi - lo
  {
    if lo < hi {
      SumRangeShift(f, g, lo, hi - 1, d);
    }
  }

  /** Leaving out the edge terms gives the same value as reading the array
      as zero beyond its ends: output `i` is the zero-padded correlation of
      the array with the whole kernel. */
  lemma EdgesActAsZeroPadding(a: seq<real>, w: seq<real>, i: int)
    requires |w| % 2 == 1 && 0 <= i < |a|
    ensures OutputAt(a, w, i) == SumRange(Tap(a, w, i), 0, |w|)
  {
    var r := KernelRange(i, |a|, |w|);
    var f := Tap(a, w, i);
    forall k | 0 <= k < r.0 ensures f(k) == 0.0 {
      assert At(a, i - |w| / 2 + k) == 0.0;
    }
    forall k | r.1 + 1 <= k < |w| ensures f(k) == 0.0 {
      assert r.1 < |w| - 1;
      assert At(a, i - |w| / 2 + k) == 0.0;
    }
    SumRangeTrim(f, 0, |w|, r.0, r.1 + 1);
  }

  /** Indices at least half a kernel away from both ends use every weight,
      each against a sample inside the array. */
  lemma InteriorUsesFullKernel(a: seq<real>, w: seq<real>, i: int)
    requires |w| % 2 == 1 && |w| / 2 <= i < |a| - |w| / 2
    ensures KernelRange(i, |a|, |w|) == (0, |w| - 1)
    ensures OutputAt(a, w, i) == SumRange(Tap(a, w, i), 0, |w|)
    ensures forall k :: 0 <= k < |w| ==> Tap(a, w, i)(k) == a[i - |w| / 2 + k] * w[k]
  {
  }

  /** A single weight scales every sample. */
  lemma SingleWeight(a: seq<real>, w0: real)
    ensures Convolved(a, [w0]) == Ok(seq(|a|, i requires 0 <= i < |a| => w0 * a[i]))
  {
    var out := Convolved(a, [w0]).value;
    var scaled := seq(|a|, i requires 0 <= i < |a| => w0 * a[i]);
    forall i | 0 <= i < |a| ensures out[i] == scaled[i] {
      assert KernelRange(i, |a|, 1) == (0, 0);
      assert SumRange(Tap(a, [w0], i), 0, 1) == Tap(a, [w0], i)(0);
    }
    assert out == scaled;
  }

  /** A kernel that reads the same backwards. */
  predicate Palindromic(w: seq<real>)
  {
    forall k :: 0 <= k < |w| ==> w[k] == w[|w| - 1 - k]
  }

  /** numpy.convolve(a, v, 'same') for a kernel no longer than the array:
      the full convolution `c[n] = sum over m of a[m] * v[n - m]`, sampled at
      `n = i + (|v| - 1) / 2`. */
  function NumpySameAt(a: seq<real>, v: seq<real>, i: int): real
  {
    SumRange(m => At(a, m) * At(v, i + (|v| - 1) / 2 - m), 0, |a|)
  }

  function NumpySame(a: seq<real>, v: seq<real>): (r: seq<real>)
    ensures |r| == |a|
  {
    seq(|a|, i requires 0 <= i < |a| => NumpySameAt(a, v, i))
  }

  /** The claim in convolve's documentation, where it holds: the code never
      reverses the weights, so for kernels that read the same backwards each
      output is the full convolution sampled at the centre offset, which is
      numpy's 'same' value when the kernel is no longer than the array. */
  lemma {:induction false} PalindromicOutputAtMatchesNumpy(a: seq<real>, w: seq<real>, i: int)
    requires |w| % 2 == 1 && Palindromic(w) && 0 <= i < |a|
    ensures OutputAt(a, w, i) == NumpySameAt(a, w, i)
  {
    var off := |w| / 2;
    var tap := Tap(a, w, i);
    var f := m => At(a, m) * At(w, i + (|w| - 1) / 2 - m);
    EdgesActAsZeroPadding(a, w, i);
    // reading the kernel backwards is reading it forwards
    forall k | 0 <= k < |w| ensures tap(k) == f(k + (i - off)) {
      assert i + off - (k + i - off) == |w| - 1 - k;
    }
    SumRangeShift(tap, f, 0, |w|, i - off);
    // outside both the array and the kernel's reach the terms vanish
    var p := Max(0, i - off);
    var q := Min(|a|, i + off + 1);
    forall m | 0 <= m < p ensures f(m) == 0.0 {
      assert i + off - m > |w| - 1;
    }
    forall m | q <= m < |a| ensures f(m) == 0.0 {
      assert i + off - m < 0;
    }
    SumRangeTrim(f, 0, |a|, p, q);
    forall m | i - off <= m < p ensures f(m) == 0.0 {
    }
    forall m | q <= m < i + off + 1 ensures f(m) == 0.0 {
    }
    SumRangeTrim(f, i - off, i - off + |w|, p, q);
  }

  lemma PalindromicMatchesNumpy(a: seq<real>, w: seq<real>)
    requires |w| % 2 == 1 && Palindromic(w) && |w| <= |a|
    ensures Convolved(a, w) == Ok(NumpySame(a, w))
  {
    var out := Convolved(a, w).value;
    var numpy := NumpySame(a, w);
    forall i | 0 <= i < |a| ensures out[i] == numpy[i] {
      PalindromicOutputAtMatchesNumpy(a, w, i);
    }
    assert out == numpy;
  }
}
