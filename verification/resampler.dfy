/** The resampler of the diffuse-constraint posterior: from a coarse abundance
    grid `fs` and a matrix of integrand values, one column per cross-section,
    build for every column a refined abundance grid of two geometric runs, one
    from the low bound up to the peak and one from the peak to the high bound.
    The matrix is held as its sequence of columns, and so is the result. */
module Resampler {
  import opened Reductions
  import opened Geometric
  import opened PeakBracket

  /** The two ways numpy refuses the computation. */
  datatype ResampleError =
    | TooFewSamples   // fewer than two grid points: `max`/`argmax` over an empty axis
    | ZeroEndpoint    // some chosen bound is 0: `geomspace` refuses the whole array

  datatype Result<T> = Success(value: T) | Failure(error: ResampleError)

  /** The default negligibility fraction and run lengths of the resampler. */
  const DefaultFrac: real := 0.0000000001
  const DefaultLow: nat := 75
  const DefaultHigh: nat := 350

  /** A matrix of shape [N, M] whose N rows match the N grid points. */
  predicate WellShaped(fs: seq<real>, cols: seq<seq<real>>)
  {
    forall j :: 0 <= j < |cols| ==> |cols[j]| == |fs|
  }

  /** The grid values a bracket selects are all non-zero, so both geometric
      runs are defined. */
  predicate NonZeroBounds(fs: seq<real>, b: Bracket)
    requires b.low < |fs| && b.peak < |fs| && b.high < |fs|
  {
    Defined(fs[b.low], fs[b.peak]) && Defined(fs[b.peak], fs[b.high])
  }

  /** Whether column `v` can be resampled: its bracket avoids grid value 0. */
  predicate Resamplable(fs: seq<real>, v: seq<real>, frac: real)
    requires |v| == |fs| >= 2
  {
    NonZeroBounds(fs, SelectBracket(v, frac))
  }

  /** The refined grid of one column: `nLow` points from f_low to f_peak
      followed by `nHigh` points from f_peak to f_high. */
  function ColumnSamples(fs: seq<real>, b: Bracket, nLow: nat, nHigh: nat, interior: Interior): (r: seq<real>)
    requires b.low < |fs| && b.peak < |fs| && b.high < |fs|
    requires NonZeroBounds(fs, b)
    ensures |r| == nLow + nHigh
    ensures nLow >= 1 ==> r[0] == fs[b.low]
    ensures nLow >= 2 ==> r[nLow - 1] == fs[b.peak]
    ensures nHigh >= 1 ==> r[nLow] == fs[b.peak]
    ensures nHigh >= 2 ==> r[nLow + nHigh - 1] == fs[b.high]
  {
    Geomspace(fs[b.low], fs[b.peak], nLow, interior) + Geomspace(fs[b.peak], fs[b.high], nHigh, interior)
  }

  /** Every column can be resampled. */
  predicate AllResamplable(fs: seq<real>, cols: seq<seq<real>>, frac: real)
    requires |fs| >= 2 && WellShaped(fs, cols)
  {
    forall j :: 0 <= j < |cols| ==> Resamplable(fs, cols[j], frac)
  }

  /** The whole resampling step. */
  function Resample(fs: seq<real>, cols: seq<seq<real>>, frac: real, nLow: nat, nHigh: nat,
                    interior: Interior): (r: Result<seq<seq<real>>>)
    requires WellShaped(fs, cols)
    ensures r.Failure? <==>
              |fs| < 2 || exists j :: 0 <= j < |cols| && !Resamplable(fs, cols[j], frac)
    ensures |fs| < 2 ==> r == Failure(TooFewSamples)
    ensures r.Success? ==> |r.value| == |cols|
    ensures r.Success? ==> forall j :: 0 <= j < |cols| ==>
              r.value[j] == ColumnSamples(fs, SelectBracket(cols[j], frac), nLow, nHigh, interior)
  {
    if |fs| < 2 then Failure(TooFewSamples)
    else if !AllResamplable(fs, cols, frac) then Failure(ZeroEndpoint)
    else Success(seq(|cols|, j requires 0 <= j < |cols| =>
                       ColumnSamples(fs, SelectBracket(cols[j], frac), nLow, nHigh, interior)))
  }

  /** The resampler with its default fraction and run lengths. */
  function ResampleDefault(fs: seq<real>, cols: seq<seq<real>>, interior: Interior): (r: Result<seq<seq<real>>>)
    requires WellShaped(fs, cols)
    ensures r.Success? ==> forall j :: 0 <= j < |r.value| ==> |r.value[j]| == 425
  {
    Resample(fs, cols, DefaultFrac, DefaultLow, DefaultHigh, interior)
  }

  /** Every refined column has exactly `nLow + nHigh` points; the first run
      starts at f_low and ends at f_peak, the second starts at f_peak and ends
      at f_high. */
  lemma OutputShape(fs: seq<real>, cols: seq<seq<real>>, frac: real, nLow: nat, nHigh: nat,
                    interior: Interior, j: nat)
    requires WellShaped(fs, cols)
    requires Resample(fs, cols, frac, nLow, nHigh, interior).Success?
    requires j < |cols|
    ensures var r := Resample(fs, cols, frac, nLow, nHigh, interior).value[j];
            var b := SelectBracket(cols[j], frac);
            && |r| == nLow + nHigh
            && (nLow >= 1 ==> r[0] == fs[b.low])
            && (nLow >= 2 ==> r[nLow - 1] == fs[b.peak])
            && (nHigh >= 1 ==> r[nLow] == fs[b.peak])
            && (nHigh >= 2 ==> r[nLow + nHigh - 1] == fs[b.high])
  {
  }

  /** Changing one column leaves the refined grid of every other column as it
      was. */
  lemma ColumnsIndependent(fs: seq<real>, cols: seq<seq<real>>, cols': seq<seq<real>>, frac: real,
                           nLow: nat, nHigh: nat, interior: Interior, j: nat)
    requires WellShaped(fs, cols) && WellShaped(fs, cols')
    requires |cols| == |cols'| && j < |cols|
    requires forall k :: 0 <= k < |cols| && k != j ==> cols[k] == cols'[k]
    requires Resample(fs, cols, frac, nLow, nHigh, interior).Success?
    requires Resample(fs, cols', frac, nLow, nHigh, interior).Success?
    ensures forall k :: 0 <= k < |cols| && k != j ==>
              Resample(fs, cols, frac, nLow, nHigh, interior).value[k]
              == Resample(fs, cols', frac, nLow, nHigh, interior).value[k]
  {
  }

  /** A single-column matrix succeeds exactly when its column is
      resamplable, and then holds that column's refined grid. */
  lemma SingleColumn(fs: seq<real>, v: seq<real>, frac: real, nLow: nat, nHigh: nat,
                                        interior: Interior)
    requires |v| == |fs| >= 2
    ensures Resample(fs, [v], frac, nLow, nHigh, interior)
            == if Resamplable(fs, v, frac)
               then Success([ColumnSamples(fs, SelectBracket(v, frac), nLow, nHigh, interior)])
               else Failure(ZeroEndpoint)
  {
    assert [v][0] == v;
    var r := Resample(fs, [v], frac, nLow, nHigh, interior);
    if Resamplable(fs, v, frac) {
      assert r.Success? && |r.value| == 1;
      assert r.value == [r.value[0]];
    }
  }

  /** Resampling a matrix is resampling each of its columns on its own: the
      matrix succeeds exactly when every single-column matrix does, and then
      column j of the result is the result for column j alone. */
  lemma ResampleByColumn(fs: seq<real>, cols: seq<seq<real>>, frac: real, nLow: nat, nHigh: nat,
                                            interior: Interior)
    requires WellShaped(fs, cols)
    ensures Resample(fs, cols, frac, nLow, nHigh, interior).Success? <==>
              |fs| >= 2 && forall j :: 0 <= j < |cols| ==> Resample(fs, [cols[j]], frac, nLow, nHigh, interior).Success?
    ensures Resample(fs, cols, frac, nLow, nHigh, interior).Success? ==>
              forall j :: 0 <= j < |cols| ==>
                Resample(fs, [cols[j]], frac, nLow, nHigh, interior).value
                == [Resample(fs, cols, frac, nLow, nHigh, interior).value[j]]
  {
    if |fs| >= 2 {
      forall j | 0 <= j < |cols|
        ensures Resample(fs, [cols[j]], frac, nLow, nHigh, interior)
                == if Resamplable(fs, cols[j], frac)
                   then Success([ColumnSamples(fs, SelectBracket(cols[j], frac), nLow, nHigh, interior)])
                   else Failure(ZeroEndpoint)
      {
        SingleColumn(fs, cols[j], frac, nLow, nHigh, interior);
      }
    }
  }

  /** An identically zero column on a grid without zeros is refined from the
      first grid point to itself and then from the first to the last grid
      point. */
  lemma AllZeroColumnSamples(fs: seq<real>, v: seq<real>, frac: real, nLow: nat, nHigh: nat,
                             interior: Interior)
    requires |v| == |fs| >= 2
    requires forall i :: 0 <= i < |fs| ==> fs[i] != 0.0
    requires forall i :: 0 <= i < |v| ==> v[i] == 0.0
    ensures Resample(fs, [v], frac, nLow, nHigh, interior)
            == Success([Geomspace(fs[0], fs[0], nLow, interior) + Geomspace(fs[0], fs[|fs| - 1], nHigh, interior)])
  {
    AllZeroColumn(v, frac);
    assert Resamplable(fs, v, frac);
    SingleColumn(fs, v, frac, nLow, nHigh, interior);
  }

  /** On a grid of positive increasing abundances, a unimodal column's refined
      grid starts no higher than its peak and ends no lower. */
  lemma UnimodalSamplesBracketPeak(fs: seq<real>, v: seq<real>, frac: real, nLow: nat, nHigh: nat,
                                   interior: Interior)
    requires |v| == |fs| >= 2
    requires Increasing(fs) && Unimodal(v)
    requires forall i :: 0 <= i < |fs| ==> fs[i] > 0.0
    requires nLow >= 1 && nHigh >= 2
    ensures var r := Resample(fs, [v], frac, nLow, nHigh, interior);
            && r.Success?
            && r.value[0][0] <= fs[ArgMax(v)] <= r.value[0][nLow + nHigh - 1]
  {
    var b := SelectBracket(v, frac);
    UnimodalBracketOrdered(fs, v, frac);
    assert Resamplable(fs, v, frac);
    SingleColumn(fs, v, frac, nLow, nHigh, interior);
    var c := ColumnSamples(fs, b, nLow, nHigh, interior);
    assert c[0] == fs[b.low] && c[nLow + nHigh - 1] == fs[b.high];
  }
}
