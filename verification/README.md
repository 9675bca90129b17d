# Peak-bracketing resampler of the diffuse-constraint posterior

The diffuse-constraint posterior over the dark-matter annihilation cross-section
integrates the posterior integrand over the relative PBH abundance `f`. It does
this in two passes. A coarse log-spaced `f` grid is evaluated first. Then, for
each cross-section column of integrand values, `DiffusePosterior._get_trapz_f_samples`
finds the peak and a low and a high bound around it, and builds a refined grid
of two geometric runs: `n_low` points from `f_low` to `f_peak`, then `n_high`
points from `f_peak` to `f_high`.

This project models that resampling step over exact `real` arithmetic:

- `reductions.dfy` (module `Reductions`): numpy's column `max`, value
  `argmax` (first maximum) and boolean-mask `argmax` (first `true`, else 0).
- `geometric.dfy` (module `Geometric`): `np.geomspace`, reduced to what numpy
  guarantees exactly. That is the number of points and the two endpoints,
  which numpy writes back verbatim. The interior points come from a function
  parameter `interior`. An endpoint of 0 is refused, as numpy refuses it.
- `peak_bracket.dfy` (module `PeakBracket`): one column. It covers the
  threshold `frac * max`, the crossing indicator `d` (differences of signs of
  `threshold - value` over adjacent pairs), and the low, peak and high indices
  with the `idx_high == 0 → -1` replacement and Python's `-1` indexing.
- `resampler.dfy` (module `Resampler`): the whole matrix, held as a sequence of
  columns of length N. It models the two ways numpy raises. With fewer than
  two grid points, `max`/`argmax` run over an empty axis. If any column's
  chosen bound is 0, `geomspace` refuses the whole array, so one bad column
  fails every column.

Behaviour of the code that the model keeps, and where it differs from the
docstring (posterior_inference_diffuse.py:69-94):

- The low bound is the LEFT point `i` of the first rising pair: the point just
  before the column goes from below the threshold `t` to at or above it
  (`v[i] < t <= v[i+1]`), or from exactly `t` to above it
  (`v[i] = t < v[i+1]`). The high bound is the LEFT point `i` of the first
  falling pair: the point just before the column goes from above `t` to at or
  below it (`v[i] > t >= v[i+1]`), or from exactly `t` to below it
  (`v[i] = t > v[i+1]`). So the low run includes the crossing interval and the
  high run leaves it out.
- A falling crossing at pair 0 is indistinguishable from "no falling
  crossing": both give the last grid index.
- An identically zero column gives low = peak = 0 and high = N − 1, so the
  high run spans the whole grid instead of shrinking to the peak
  (`PeakBracket.AllZeroColumn`).
- The docstring describes the runs as below and above the peak
  (posterior_inference_diffuse.py:69-70, 84-87). The code keeps
  low ≤ peak ≤ high only for unimodal columns (`PeakBracket.UnimodalOrdered`).
  Two concrete columns show low after peak and high before peak
  (`PeakBracket.LowAfterPeakExample`, `PeakBracket.HighBeforePeakExample`).
- Each refined column has `n_low + n_high` points. The docstring says
  `n_low + n_peak + n_high`, but there is no `n_peak`.
- With `n_low == 1` the first run is `[f_low]` alone and never reaches the
  peak (`Geometric.SinglePointIsStart`).

The matrix is given as columns, and the refined grid is returned as columns
too. numpy's `[n_low + n_high, M]` array is the transpose of that sequence.

## Model

| member | source | states |
|---|---|---|
| `Reductions.Max` | posterior_inference_diffuse.py:96 | the column maximum is one of the column's values and no value exceeds it |
| `Reductions.ArgMax` | posterior_inference_diffuse.py:102 | the peak index is a valid position whose value no entry exceeds, and every earlier value is strictly smaller (the first maximum, numpy's convention) |
| `Reductions.ArgMaxUnique` | posterior_inference_diffuse.py:96-102 | a position that no value exceeds and that has only smaller values before it holds the column maximum and is the peak index |
| `Reductions.FirstTrue` | posterior_inference_diffuse.py:103-104 | argmax of a boolean mask is the first `true` position, or 0 exactly when the mask is all `false` or its first entry is `true` |
| `Geometric.Geomspace` | posterior_inference_diffuse.py:108-109 | a geometric run of `num` points has length `num`, starts exactly at `start` and, with two or more points, ends exactly at `stop` |
| `Geometric.SinglePointIsStart` | posterior_inference_diffuse.py:108-109 | a one-point run is the start alone |
| `PeakBracket.Sign` | posterior_inference_diffuse.py:98-99 | sign is 1, -1 or 0 exactly for positive, negative or zero arguments |
| `PeakBracket.Crossings` | posterior_inference_diffuse.py:97-99 | the indicator has one entry per adjacent pair, each in [-2, 2]; an entry is positive exactly when the column rises across the threshold there (`v[i] < t <= v[i+1]` or `v[i] = t < v[i+1]`) and negative exactly when it falls across it |
| `PeakBracket.Rising` | posterior_inference_diffuse.py:103 | the mask `d > 0` is true exactly where the indicator is positive |
| `PeakBracket.Falling` | posterior_inference_diffuse.py:104 | the mask `d < 0` is true exactly where the indicator is negative |
| `PeakBracket.PyIndex` | posterior_inference_diffuse.py:105-106 | a Python index in range resolves to a valid position; -1 names the last one |
| `PeakBracket.HighSlot` | posterior_inference_diffuse.py:104-105 | `idx_high` is never 0; it is -1 exactly when the first pair falls or no pair falls, and otherwise it is the first falling pair |
| `PeakBracket.LowIndex` | posterior_inference_diffuse.py:103 | the low index is the smallest rising pair, or 0 when no pair rises |
| `PeakBracket.LowIndexIsFirstRise` | posterior_inference_diffuse.py:103 | conversely, the first rising pair is the low index |
| `PeakBracket.HighIndex` | posterior_inference_diffuse.py:104-106 | the high index is the last grid index exactly when pair 0 falls or no pair falls; otherwise it is the first falling pair, which is then positive |
| `PeakBracket.HighIndexIsFirstFall` | posterior_inference_diffuse.py:104-106 | conversely, a first falling pair at a positive position is the high index |
| `PeakBracket.SelectBracket` | posterior_inference_diffuse.py:96-106 | all three chosen indices are valid positions, and the peak index holds the maximum with only smaller values before it |
| `PeakBracket.AllZeroColumn` | posterior_inference_diffuse.py:96-106 | an identically zero column yields low = peak = 0 and high = N-1 |
| `PeakBracket.RisingPairBetween` | posterior_inference_diffuse.py:98-99 | a value below the threshold followed later by one at or above it has a rising pair between them |
| `PeakBracket.Threshold` | posterior_inference_diffuse.py:96-97 | the threshold is `frac` times the column maximum; with 0 <= frac <= 1 and a non-negative maximum it lies between 0 and the maximum |
| `PeakBracket.LowBeforeRise` | posterior_inference_diffuse.py:98-103 | a below-threshold value before an at-or-above-threshold one puts the low index strictly before the latter |
| `PeakBracket.LowBeforePeak` | posterior_inference_diffuse.py:98-103 | for any threshold no higher than the peak value, a value before the peak strictly below it puts the low index strictly before the peak |
| `PeakBracket.LowBeforePeakFrac` | posterior_inference_diffuse.py:74-103 | with 0 <= frac <= 1, a non-negative maximum and some value before the peak strictly below `frac * max`, the chosen low index lies strictly before the peak |
| `PeakBracket.UnimodalAroundPeak` | posterior_inference_diffuse.py:102 | in a column that never rises after falling, no step before the first maximum falls and no step from it on rises |
| `PeakBracket.UnimodalOrdered` | posterior_inference_diffuse.py:98-106 | for a unimodal column low <= peak <= high, whatever the threshold is |
| `PeakBracket.UnimodalGridOrdered` | posterior_inference_diffuse.py:102-106 | on an increasing grid a unimodal column gives `f_low <= f_peak <= f_high`, whatever the threshold is |
| `PeakBracket.UnimodalBracketOrdered` | posterior_inference_diffuse.py:96-106 | the bracket chosen for a unimodal column is ordered in index and, on an increasing grid, in abundance |
| `PeakBracket.LowAfterPeakExample` | posterior_inference_diffuse.py:96-106 | the column [10, 0, 5] with frac 1/2 gives low 1 after peak 0 |
| `PeakBracket.HighBeforePeakExample` | posterior_inference_diffuse.py:96-106 | the column [0, 5, 0, 10] with frac 1/4 gives high 1 before peak 3 |
| `Resampler.ColumnSamples` | posterior_inference_diffuse.py:108-109 | a refined column has `n_low + n_high` points; the first run starts at `f_low` and ends at `f_peak`, the second starts at `f_peak` and ends at `f_high` |
| `Resampler.Resample` | posterior_inference_diffuse.py:67-109 | the step fails exactly when there are fewer than two grid points or some column is not `Resamplable`, i.e. one of its chosen bounds is grid value 0 and `geomspace` refuses it; otherwise it returns one refined column per input column, each built from that column's own bracket |
| `Resampler.ResampleDefault` | posterior_inference_diffuse.py:67-68 | with the default run lengths every refined column has 425 points |
| `Resampler.OutputShape` | posterior_inference_diffuse.py:96-109 | column j of a successful result has `n_low + n_high` points and the endpoints of column j's bracket |
| `Resampler.ColumnsIndependent` | posterior_inference_diffuse.py:96-109 | changing one input column leaves every other refined column unchanged |
| `Resampler.SingleColumn` | posterior_inference_diffuse.py:96-109 | a one-column matrix fails exactly when its bracket hits a zero grid value, and otherwise holds that column's refined grid |
| `Resampler.ResampleByColumn` | posterior_inference_diffuse.py:96-109 | the matrix succeeds exactly when every single-column matrix does, and column j of the result equals the result for column j alone |
| `Resampler.AllZeroColumnSamples` | posterior_inference_diffuse.py:96-109 | an all-zero column on a zero-free grid is refined from the first grid point to itself, then from the first grid point to the last |
| `Resampler.UnimodalSamplesBracketPeak` | posterior_inference_diffuse.py:96-109 | on a positive increasing grid a unimodal column's refined grid starts at or below `f_peak` and ends at or above it |

## Left out

- `integrand` (posterior_inference_diffuse.py:39-65): log/exp of prior densities and a Gaussian likelihood. These are transcendental floating-point computations over functions outside this file (`phi_ex`, and the base class's `p_sv`, `p_f`).
- `_get_posterior_val` (posterior_inference_diffuse.py:111-132): meshgrid and `np.vectorize` glue around a call to `scipy.integrate.trapz`, which is outside this model. Its call at lines 122-123 is `Resample(fs, cols, DefaultFrac, 50, 150, interior)`, since `Resample` takes the run lengths as parameters. The caller wraps everything in `np.vectorize` over `sv` (line 132), so the resampler only ever receives one column (M = 1); `Resampler.SingleColumn` and `Resampler.ResampleByColumn` are the facts about that case.
- `__init__` and `filename_suffix` (posterior_inference_diffuse.py:14-37, 134-136): base-class configuration and string formatting with no local logic.
- `Geometric.Geomspace`: the interior points of a geometric run need real logarithms and powers. They are a caller-supplied function, so the model proves nothing about them. In particular it does not prove that the refined grid is monotone, nor that the interior of a zero-width run repeats its endpoint.
- Floating point: `frac * max` and the comparisons are exact over `real`. The model has no IEEE rounding, NaN or infinities.
- Negative run lengths (numpy raises for them) cannot be stated: `n_low` and `n_high` are `nat`.
- Shape: the value matrix must have one row per grid point. A grid whose length differs from the matrix's row count is outside the model. numpy would index `fs` with the matrix's indices, and `-1` would then name the grid's own last point.
