# LHIPA in Dafny

The Low-to-High Index of Pupil Amplitude (LHIPA) is a measure of cognitive
load computed from a signal of pupil diameters. The samples are wavelet
decomposed, and the low-frequency band is divided by the high-frequency band.
The modulus maxima of that ratio are kept below a universal threshold and
counted, and the count per sample is the index.

This project models the discrete skeleton of two implementations of the
metric, over `real` and `int` rather than IEEE floats:

- **The Unity implementation**: `LHIPA.CalculateLHIPA` and its helpers, and
  the `WaveletTransform` base class of the SharpWave library that produces the
  decomposition matrix.
  - Modules `Lhipa`, `SharpWave` and `Arrays`.
  - Each stage that fills an array is a method over `array<real>`, proved
    against a function on sequences.
  - The properties of the computation are lemmas about those functions.
- **The Python reference implementation**: `modmax` and `lhipa` in
  `Python/lhipa.py`.
  - Module `PyLhipa`.
  - Its loops are methods over sequences, proved against specification
    functions.
  - Lemmas relate it to the Unity model. Its modulus maxima are the Unity ones
    with a cut-off at most 0. Its ratio index multiplies by 2^(lof - hif) where
    the Unity one divides.
  - `modmax` and `lhipa` in `Python/lhipa_test.py` are the same code with debug
    prints added. Module `PyLhipaTest` models them by the reference members,
    and its contracts state what those copies promise.
- **Shared module `Arith`**: powers of two, integer logarithms, halving, the
  absolute value and a total quotient.
- **Shared module `Counting`**: the count of non-zero entries, which both
  implementations report.

## Parameters

These are given from outside and not computed by the model:

- **The wavelet transform of one level count**, `forward(arr, level)` of the
  wavelet packet transform. It is a function field of
  `SharpWave.WaveletTransform`. `Decompose` requires that it keeps the array
  length.
- **The mother wavelength** of Symlet16. It is a positive field of
  `SharpWave.Wavelet`.
- **Floating point quantities (Unity)**: the scale factor 1 / sqrt(2^level),
  and the universal threshold sqrt(2 ln n / ln 2) times the standard
  deviation. Both are held in `Lhipa.Numerics`.
- **The two correction parameters**, `Lhipa.Corrections`. They are
  process-wide statics in the source and default to 0.
- **PyWavelets and floating point quantities (Python)**: `dwt_max_level`,
  `downcoef`, `math.sqrt(2**level)` and the universal threshold. All are
  held in `PyLhipa.PyWavelets`. `threshold(mode='less')` is modelled as
  `PyLhipa.ThresholdLess`: entries above the threshold become 0.

## Behaviour of the code

- **Correction step**: the correction compares the value *before* the
  division by the multiplicative parameter with the additive parameter.
  `Lhipa.CorrectionComparesUndividedValue` gives an input, 0.2 with
  parameters (2, 0.15), for which the corrected value is -0.05.
- **Raising the ModMax cut-off**: this can only lower the count, and with it
  the uncorrected LHIPA, while the universal threshold stays fixed
  (`Lhipa.CountMonotoneInCutOff`). The corrected value need not follow: the
  additive parameter is subtracted only above it. The
  pipeline recomputes that threshold from the maxima, so across the whole
  computation a higher cut-off can move lambda. With the keep-small rule, a
  moved lambda can keep more maxima.

## Model

| member | source | states |
|---|---|---|
| Arith.Log2Floor | Unity/LHIPA/Assets/Scripts/LHIPA.cs:109 | the integer part of log2 n: 2^k <= n < 2^(k+1) |
| Arith.Log2Ceil | Unity/LHIPA/Assets/Scripts/LHIPA.cs:383 | the ceiling of log2 n: n <= 2^k < 2n |
| Arith.PowerOfTwoIff | Unity/LHIPAOpenXR250/Assets/LHIPA/Scripts/SharpWave/WaveletTransform.cs:69 | the power-of-two test holds exactly when n = 2^k for some k |
| Arith.ShiftRightIsQuotient | Unity/LHIPA/Assets/Scripts/LHIPA.cs:154 | halving i k times gives the integer part of i / 2^k |
| Counting.CountNonZero | Unity/LHIPA/Assets/Scripts/LHIPA.cs:191-198 | the number of entries with positive modulus is at most the length |
| Counting.CountZeroIff | Unity/LHIPA/Assets/Scripts/LHIPA.cs:191-198 | the count is 0 exactly when every entry is 0 |
| Counting.CountMonotone | Unity/LHIPA/Assets/Scripts/LHIPA.cs:191-198 | a sequence that is non-zero only where another is non-zero counts no more |
| Arrays.Copy | Unity/LHIPA/Assets/Scripts/LHIPA.cs:241 | Array.Copy writes the source window into the target window and leaves every other slot unchanged |
| SharpWave.Wavelet.constructor | Unity/LHIPA/Assets/Scripts/LHIPA.cs:95 | the wavelet keeps its name and its positive mother wavelength |
| SharpWave.CalcExponent | Unity/LHIPAOpenXR250/Assets/LHIPA/Scripts/SharpWave/WaveletTransform.cs:73 | the exponent p with 2^p <= length < 2^(p+1), and 2^p = length for a power of two |
| SharpWave.WaveletTransform.Init | Unity/LHIPAOpenXR250/Assets/LHIPA/Scripts/SharpWave/WaveletTransform.cs:46-54 | the transform stores the wavelet, name and level transforms unchanged |
| SharpWave.WaveletTransform.Create | Unity/LHIPAOpenXR250/Assets/LHIPA/Scripts/SharpWave/WaveletTransform.cs:46-54 | fails with NotExistent exactly for a null wavelet, otherwise stores the wavelet unchanged |
| SharpWave.WaveletTransform.Forward | Unity/LHIPAOpenXR250/Assets/LHIPA/Scripts/SharpWave/WaveletTransform.cs:68-75 | fails with DataNotValid exactly when the length is not a power of two, otherwise is forward(arr, p) for 2^p = length |
| SharpWave.WaveletTransform.Reverse | Unity/LHIPAOpenXR250/Assets/LHIPA/Scripts/SharpWave/WaveletTransform.cs:86-93 | the same guard, then reverse(arr, p) for 2^p = length |
| SharpWave.WaveletTransform.Row | Unity/LHIPAOpenXR250/Assets/LHIPA/Scripts/SharpWave/WaveletTransform.cs:127-128 | every decomposition row is as long as the input |
| SharpWave.WaveletTransform.RowZeroIsTimeSeries | Unity/LHIPAOpenXR250/Assets/LHIPA/Scripts/SharpWave/WaveletTransform.cs:102-104 | row 0 of the decomposition is the time series itself, given that forward by zero levels leaves the array unchanged |
| SharpWave.WaveletTransform.Decompose | Unity/LHIPAOpenXR250/Assets/LHIPA/Scripts/SharpWave/WaveletTransform.cs:119-131 | calcExponent(length) + 1 fresh rows, row p the first length values of forward(arrTime, p) on the unmodified input |
| Lhipa.TargetLengthFitsInt32 | Unity/LHIPA/Assets/Scripts/LHIPA.cs:379-384 | up to 2^30 samples the power of two returned is at most 2^30, inside int range |
| Lhipa.RatioProductFitsInt32 | Unity/LHIPA/Assets/Scripts/LHIPA.cs:148 | for a mother wavelength of at least 16 and at most 2^23 samples, the int product highLength * 2^(lof - hif) is at most 2^30 and does not wrap |
| Lhipa.TargetLength | Unity/LHIPA/Assets/Scripts/LHIPA.cs:383 | the extension target is a power of two with n <= target < 2n |
| Lhipa.NextPowerOfTwo | Unity/LHIPA/Assets/Scripts/LHIPA.cs:379-384 | ArgumentException exactly for n <= 0, otherwise the smallest power of two not below n |
| Lhipa.PeriodicExtensionTo | Unity/LHIPA/Assets/Scripts/LHIPA.cs:221-250 | the extended signal has exactly the target length |
| Lhipa.PeriodicExtension | Unity/LHIPA/Assets/Scripts/LHIPA.cs:226-232 | the extension CalculateLHIPA uses has length NextPowerOfTwo(n) |
| Lhipa.ExtensionLeft | Unity/LHIPA/Assets/Scripts/LHIPA.cs:235-238 | slot i < e holds sample n - e + i |
| Lhipa.ExtensionMiddle | Unity/LHIPA/Assets/Scripts/LHIPA.cs:241 | slots e .. e + n hold the samples unchanged |
| Lhipa.ExtensionRight | Unity/LHIPA/Assets/Scripts/LHIPA.cs:244-247 | slot e + n + i holds sample i |
| Lhipa.ExtensionPad | Unity/LHIPA/Assets/Scripts/LHIPA.cs:229-247 | when target - n is odd the last slot is never written and stays 0 |
| Lhipa.ExtensionShape | Unity/LHIPA/Assets/Scripts/LHIPA.cs:229-247 | every slot is one of the four cases, and every sample index read is in range since e < n |
| Lhipa.ExtensionFromPositions | Unity/LHIPA/Assets/Scripts/LHIPA.cs:221-250 | an array agreeing with the four cases at every slot is the periodic extension |
| Lhipa.FillExtension | Unity/LHIPA/Assets/Scripts/LHIPA.cs:234-247 | the left border loop, the Array.Copy and the right border loop leave every slot of the zeroed array equal to ExtensionAt: the last e samples, the signal, the first e samples, then 0 |
| Lhipa.CopyBorder | Unity/LHIPA/Assets/Scripts/LHIPA.cs:235-247 | a border loop writes signal[from + i] to slot to + i and nothing else |
| Lhipa.ExtendSignalToBinaryWithPeriodic | Unity/LHIPA/Assets/Scripts/LHIPA.cs:221-250 | fails only for an empty signal, otherwise returns a fresh array equal to the periodic extension |
| Lhipa.LevelChoice | Unity/LHIPA/Assets/Scripts/LHIPA.cs:98-125 | with n >= 8 M, maxLevel >= 3, and hif = 1 <= lof <= maxLevel are rows of the decomposition of the extended signal |
| Lhipa.MaxLevel | Unity/LHIPA/Assets/Scripts/LHIPA.cs:109 | floor(log2(n / M)) is at least 3 and at most the exponent of the extended length |
| Lhipa.BandsSplitRow | Unity/LHIPA/Assets/Scripts/LHIPA.cs:276-291 | for an even row, high band ++ low band is the row, entry by entry the first and second half |
| Lhipa.ExtractHighPassCoefficients | Unity/LHIPA/Assets/Scripts/LHIPA.cs:276-282 | a fresh array holding the first half of the row; the level is ignored |
| Lhipa.ExtractLowPassCoefficients | Unity/LHIPA/Assets/Scripts/LHIPA.cs:285-291 | a fresh array holding the second half of the row; the level is ignored |
| Lhipa.DividedUndoesScaled | Unity/LHIPA/Assets/Scripts/LHIPA.cs:294-300 | Normalize by a non-zero factor undoes scaling by it |
| Lhipa.NormalizeByScale | Unity/LHIPA/Assets/Scripts/LHIPA.cs:387-402 | a fresh array of the same length, every element times the factor |
| Lhipa.Normalize | Unity/LHIPA/Assets/Scripts/LHIPA.cs:294-300 | every element divided in place |
| Lhipa.ComputeRatio | Unity/LHIPA/Assets/Scripts/LHIPA.cs:303-312 | length min of the two, each entry 0 where the high value is 0 and otherwise the quotient |
| Lhipa.ScaleFactor | Unity/LHIPA/Assets/Scripts/LHIPA.cs:148-151 | 2^(lf - hf) >= 1 when lf >= hf, and the cast truncates it to 0 otherwise |
| Lhipa.RatioLength | Unity/LHIPA/Assets/Scripts/LHIPA.cs:148 | at most the low band's length, and 0 when lf < hf |
| Lhipa.HighIndex | Unity/LHIPA/Assets/Scripts/LHIPA.cs:154 | the integer part of i / 2^(lf - hf): k * sf <= i < (k + 1) * sf |
| Lhipa.AlignedRatio | Unity/LHIPA/Assets/Scripts/LHIPA.cs:148-163 | the ratio has length ratioLength |
| Lhipa.LowHighRatio | Unity/LHIPA/Assets/Scripts/LHIPA.cs:148-163 | the ratio loop fills a fresh array with the aligned ratio |
| Lhipa.RatioEntry | Unity/LHIPA/Assets/Scripts/LHIPA.cs:154-162 | one pass of the ratio loop: the entry of the aligned ratio at i, low[i] / (high[i / 2^(lf - hf)] + epsilon) inside the high band, 0 past it |
| Lhipa.ZeroFillUnreachable | Unity/LHIPA/Assets/Scripts/LHIPA.cs:148-163 | with equal band lengths, the ratio is as long as the bands and every entry divides by the high value plus epsilon: the zero-fill branch is never taken |
| Lhipa.Moduli | Unity/LHIPA/Assets/Scripts/LHIPA.cs:322-325 | one modulus per input entry |
| Lhipa.BoundaryRule | Unity/LHIPA/Assets/Scripts/LHIPA.cs:330-335 | the self-as-missing-neighbour rule of IsModulusMaximum/LeftNeighbour/RightNeighbour (also lhipa.py:15-19): a single sample is never a peak, an end sample is a peak exactly when it is above its one neighbour, an inner sample when it is at least both neighbours and above one |
| Lhipa.ModulusMaxima | Unity/LHIPA/Assets/Scripts/LHIPA.cs:315-357 | the maxima have the input's length |
| Lhipa.MarkMaxima | Unity/LHIPA/Assets/Scripts/LHIPA.cs:327-354 | the second loop of ModMax changes only t and leaves it equal to the modulus maxima of d at the threshold |
| Lhipa.ModMax | Unity/LHIPA/Assets/Scripts/LHIPA.cs:315-357 | the two loops return a fresh array equal to the modulus maxima |
| Lhipa.ModulusMaximaEntries | Unity/LHIPA/Assets/Scripts/LHIPA.cs:328-354 | each entry is 0 or abs(d[i]), non-zero exactly at a peak of the moduli (self at the ends) not below the threshold |
| Lhipa.ModulusMaximaThresholdMonotone | Unity/LHIPA/Assets/Scripts/LHIPA.cs:341-348 | a higher threshold keeps a subset of the maxima with the same values, so the count cannot grow |
| Lhipa.ModulusMaximaOfConstant | Unity/LHIPA/Assets/Scripts/LHIPA.cs:335 | a constant input has no maxima |
| Lhipa.KeepSmall | Unity/LHIPA/Assets/Scripts/LHIPA.cs:368-376 | the thresholded data has the input's length |
| Lhipa.UniversalThreshold | Unity/LHIPA/Assets/Scripts/LHIPA.cs:368-376 | a fresh array keeping entries of modulus at most the threshold and zeroing the rest |
| Lhipa.KeepSmallProperties | Unity/LHIPA/Assets/Scripts/LHIPA.cs:373 | survivors are unchanged entries within the threshold, thresholding twice changes nothing, and the count never grows |
| Lhipa.KeepSmallThresholdMonotone | Unity/LHIPA/Assets/Scripts/LHIPA.cs:373 | a larger threshold keeps at least as many entries |
| Lhipa.CountMonotoneInCutOff | Unity/LHIPA/Assets/Scripts/LHIPA.cs:169-180 | for a fixed universal threshold, a higher ModMax cut-off never raises the count |
| Lhipa.CountMaxima | Unity/LHIPA/Assets/Scripts/LHIPA.cs:191-198 | the loop counts the entries of positive modulus, at most the length |
| Lhipa.RawLhipa | Unity/LHIPA/Assets/Scripts/LHIPA.cs:188-204 | (count / d) / (n / d) is count / n for any positive duration, in [0, 1) when count < n |
| Lhipa.RawLhipaCancels | Unity/LHIPA/Assets/Scripts/LHIPA.cs:204 | the duration cancels |
| Lhipa.Corrected | Unity/LHIPA/Assets/Scripts/LHIPA.cs:209-211 | no change with both parameters 0, non-negative without a multiplicative parameter, and the division and conditional shift inverted otherwise |
| Lhipa.CorrectionComparesUndividedValue | Unity/LHIPA/Assets/Scripts/LHIPA.cs:209-211 | the comparison uses the undivided value, so 0.2 with parameters (2, 0.15) becomes -0.05 |
| Lhipa.NormalizedHigh | Unity/LHIPA/Assets/Scripts/LHIPA.cs:118-140 | the normalised high band is half the extended length |
| Lhipa.NormalizedLow | Unity/LHIPA/Assets/Scripts/LHIPA.cs:118-141 | the normalised low band is half the extended length |
| Lhipa.LevelRatio | Unity/LHIPA/Assets/Scripts/LHIPA.cs:113-163 | the ratio is half the extended length, below n; every high-band index is in range and every entry is low[i] / (high[i / 2^(lof - 1)] + epsilon), so the zero fill never happens |
| Lhipa.ThresholdedMaxima | Unity/LHIPA/Assets/Scripts/LHIPA.cs:169-180 | the thresholded maxima are fewer than n |
| Lhipa.CalculateLhipa | Unity/LHIPA/Assets/Scripts/LHIPA.cs:85-216 | ArgumentException for null, empty or non-positive duration, InvalidOperationException below 8 M samples, otherwise the corrected count / n, in [0, 1) without corrections |
| PyLhipa.ModulusMaxima | Python/lhipa.py:5-26 | the maxima list has the input's length |
| PyLhipa.Modmax | Python/lhipa.py:5-26 | the loop assigning t[i] produces the modulus maxima |
| PyLhipa.ModulusMaximaEntries | Python/lhipa.py:14-23 | each entry is 0.0 or abs(d[i]), non-zero exactly at a peak of the moduli (self at the ends) |
| PyLhipa.ModulusMaximaMatchesCSharp | Python/lhipa.py:15-23 | the Python maxima equal the Unity ModMax with any threshold at most 0 |
| PyLhipa.CSharpThresholdDropsSmallMaxima | Unity/LHIPA/Assets/Scripts/LHIPA.cs:338-348 | with any threshold, the Unity maxima are the Python maxima with moduli below the threshold zeroed |
| PyLhipa.Levels | Python/lhipa.py:40 | hif = 1 and lof = max_level // 2 |
| PyLhipa.DivisionIsScaling | Python/lhipa.py:47-48 | dividing by sqrt(2^level) is scaling by its inverse, as the Unity code does |
| PyLhipa.NormalizedDetail | Python/lhipa.py:43-48 | the normalised coefficients are as long as downcoef's |
| PyLhipa.HfIndex | Python/lhipa.py:53 | at least i when lof >= hif, at most i otherwise |
| PyLhipa.AlignedRatio | Python/lhipa.py:51-57 | the ratio list has the low band's length |
| PyLhipa.LowHighRatio | Python/lhipa.py:51-57 | the append loop builds the aligned ratio |
| PyLhipa.IndexDivergence | Python/lhipa.py:53 | the Python index equals the Unity index exactly when lof = hif or i = 0 |
| PyLhipa.NoZeroFillForDownsampledBands | Python/lhipa.py:54-57 | when the last low-band index times 2^(lof - hif) is inside the high band, every index is in range and every entry is a quotient |
| PyLhipa.ZeroFillForEqualBands | Python/lhipa.py:54-57 | with equal band lengths and lof > hif the last entry is zero-filled |
| PyLhipa.Ratio | Python/lhipa.py:37-57 | the ratio list is as long as the level-lof coefficients |
| PyLhipa.LhipaValue | Python/lhipa.py:67-73 | ZeroDivisionError exactly for a zero duration or an empty signal, otherwise ctr / len(d) >= 0, below 1 when ctr < len(d) |
| PyLhipa.ThresholdLessIsKeepSmall | Python/lhipa.py:64 | on non-negative data, pywt's 'less' thresholding equals the C# UniversalThreshold's KeepSmall |
| PyLhipa.Thresholded | Python/lhipa.py:59-64 | the thresholded maxima are the C# KeepSmall of the Python maxima at the universal threshold, so every survivor is a maximum not above it |
| PyLhipa.ComputeLhipa | Python/lhipa.py:28-75 | ZeroDivisionError exactly for a zero duration or an empty signal, otherwise the count of non-zero thresholded maxima per sample, non-negative |
| PyLhipaTest.Modmax | Python/lhipa_test.py:8-29 | same length, each entry 0.0 or abs(d[i]), non-zero exactly at a peak of the moduli (self at the ends) |
| PyLhipaTest.LowHighRatio | Python/lhipa_test.py:65-71 | one entry per low-band index: the quotient at int(2^(lof - hif) * i) when inside cD_H, 0.0 past it |
| PyLhipaTest.ComputeLhipa | Python/lhipa_test.py:31-94 | ZeroDivisionError exactly for a zero duration or an empty signal, otherwise the count of non-zero thresholded maxima per sample, non-negative |

## Left out

- **Floating point.** All arithmetic is exact over `real`. This leaves out:
  - float and double rounding, and the float casts between stages;
  - the rounding of `1e-6f` (the model adds exactly 0.000001);
  - the magnitude `sqrt(d[i]^2)`, which is exactly `|d[i]|` here;
  - overflow and underflow of the square: `d[i] * d[i]` in float in C#
    (LHIPA.cs:338) and `d[i]**2` in Python. In C# a ratio entry above
    about 1.8e19 gives an infinite magnitude, and one below about 4e-23 gives
    magnitude 0, so that peak is not counted.
- **Default arguments.** They are required parameters in the model:
  `modMaxCorrectionThreshold = 0f` and `debugLog = false` of
  `CalculateLHIPA` (LHIPA.cs:85), and `duration_in_seconds=1.0` of `lhipa`
  (lhipa.py:28). `debugLog` only controls logging and is left out.
- **Division by zero.** Division by zero yields an infinity or NaN in C#
  floats and numpy. The model writes it as 0 (`Arith.Quotient`). This can
  only be reached where the source itself divides by zero: the Unity ratio
  adds epsilon, and the Python ratio can divide by a zero high-band value.
- **Unity numerics.** The universal threshold (`Mathf.Sqrt`, `Mathf.Log`,
  `StandardDeviation`) and the scale factor `1 / sqrt(2^level)` are
  parameters. `NormalizeByScale` therefore takes the factor rather than the
  level.
- Lhipa.RatioLength: integers are unbounded, so the 32-bit wrap-around of
  the product highLength * 2^(lof - hif) is not modelled. The product fits
  for at most 2^23 samples with a mother wavelength of at least 16
  (`Lhipa.RatioProductFitsInt32`). For n = 2^23 + 1 and a mother wavelength of
  16 or 32 it is 2^31, which wraps to int.MinValue. ratioLength is then
  negative and `new float[ratioLength]` throws OverflowException. This holds
  while the product is exactly 2^31: 2^23 < n <= 2^24 for M = 32, and
  2^23 < n < 2^24 for M = 16. From n = 2^24 + 1 (M = 32) or n = 2^24 (M = 16)
  the product is a multiple of 2^32 and wraps to 0. ratioLength is then 0,
  ModMax returns an empty array, and `StandardDeviation` throws
  InvalidOperationException from `Average` of that empty array.
- Lhipa.NextPowerOfTwo: returns 2^31 for n > 2^30, where the source casts
  `Math.Pow(2, 31)` to an int, outside the int range. Up to 2^30 the result
  fits (`Lhipa.TargetLengthFitsInt32`).
- Lhipa.CalculateLhipa: promises Success for every n >= 8 M. Above 2^23
  samples the source fails, as described for Lhipa.RatioLength. It throws
  OverflowException while the product wraps negative. It throws
  InvalidOperationException from `Average` on the empty maxima once the
  product wraps to 0. NextPowerOfTwo leaves the int range above 2^30.
- **Exact logarithms.** `maxLevel` and `NextPowerOfTwo` use `Math.Log` on
  doubles. They are modelled as the exact integer logarithms, which is what
  they compute wherever the double logarithm is exact.
- **SharpWave internals.** The filter taps of Symlet16, the concrete
  `forward(arr, level)` and `reverse(arr, level)`, `calcExponent`, `isBinary`
  and `MOTHERWAVELENGTH` are not part of this model.
  - They appear as parameters, `SharpWave.CalcExponent` and
    `Arith.IsPowerOfTwo`.
  - The `Types_NotPossible` check of the constructor cannot fail in a typed
    model and is not represented.
  - The decomposition comment says row 0 keeps the time series. That holds
    only if `forward(arr, 0)` returns `arr`, which the parameter does not
    guarantee. `SharpWave.WaveletTransform.RowZeroIsTimeSeries` proves it
    under that premise.
- **SharpWave.WaveletTransform.Decompose** requires that `forward` keeps the
  array length. The out-of-range exception of `Array.Copy` for a shorter
  result is not modelled.
- **Array bounds.** `Arrays.Copy` requires the ranges to be in bounds, which
  holds at every call in the model. Its out-of-range exception is not
  modelled.
- **CopyBorder** is one method for the two border loops of
  `ExtendSignalToBinaryWithPeriodic`. The two calls are the two loops.
- PyLhipa.ComputeLhipa: library errors. pywt is total in the model. The
  ValueError pywt raises for an empty signal or for level 0 (when
  `max_level // 2` is 0) is not modelled. For an empty signal the model
  reaches the ZeroDivisionError of the sampling rate instead.
- PyLhipa.ComputeLhipa: upper bound. It does not state the bound below 1
  that the Unity model proves. That bound depends on the lengths `downcoef`
  returns, which are not modelled.
- PyLhipaTest.ComputeLhipa: the same two gaps as PyLhipa.ComputeLhipa. The
  ValueError pywt raises at lhipa_test.py:53-54 for an empty signal or level
  0 is not modelled, and the bound below 1 is not stated.
- **Lhipa.CalculateLhipa: cut-off monotonicity.** It does not state that the
  result is monotone in the ModMax cut-off. That does not follow from the code
  once the universal threshold moves with the maxima; see
  `Lhipa.CountMonotoneInCutOff` for the fixed-threshold form.
- **Output and I/O.** `Debug.Log` and `print` output, the dead commented-out
  extractors of `LHIPA.cs`, and the commented-out `recompose` of
  `WaveletTransform.cs` are left out.
- **Outside the pipeline.** Eye tracking and XR acquisition, the UI and
  editor scripts, file logging, and the test-data generators and CSV/JSON
  harness of `Python/lhipa_test.py` are left out.
