/** The Unity implementation of the Low-to-High Index of Pupil Amplitude:
    periodic extension to a power of two, wavelet packet decomposition, band
    extraction, scale normalisation, the low/high ratio, modulus maxima, the
    keep-small universal threshold and the final count per sample.
    Every stage that fills an array is a method proved against a function on
    sequences; the properties of the computation are lemmas about those
    functions. Real arithmetic stands for the source's float and double. */
module Lhipa {
  import opened Arith
  import opened Counting
  import Arrays
  import SharpWave

  datatype LhipaError =
    | ArgumentException          // missing or empty samples, non-positive duration
    | InvalidOperationException  // fewer samples than eight mother wavelengths

  /** Added to the high-band value before dividing, to avoid division by zero. */
  const Epsilon: real := 0.000001

  /** The two process-wide correction parameters (both 0 by default). */
  datatype Corrections = Corrections(multiplicative: real, additive: real)

  const NoCorrection: Corrections := Corrections(0.0, 0.0)

  /** The floating point quantities the model takes as given:
      scaleOf(level) is 1 / sqrt(2^level), and universalThreshold(m) is
      sqrt(2 ln |m| / ln 2) times the standard deviation of m. */
  datatype Numerics = Numerics(scaleOf: nat -> real, universalThreshold: seq<real> -> real)

  // ---------------------------------------------------------------------
  // NextPowerOfTwo and the periodic extension

  /** The power of two the samples are extended to, in exact arithmetic. */
  function TargetLength(n: pos): (target: nat)
    ensures IsPowerOfTwo(target) && n <= target < 2 * n
  {
    Log2FloorOfPow2(Log2Ceil(n));
    Pow2(Log2Ceil(n))
  }

  /** NextPowerOfTwo: the smallest power of two not below n; n <= 0 is rejected. */
  function NextPowerOfTwo(n: int): (r: Result<nat, LhipaError>)
    ensures r.Failure? <==> n <= 0
    ensures r.Failure? ==> r.error == ArgumentException
    ensures r.Success? ==> IsPowerOfTwo(r.value) && n <= r.value < 2 * n
  {
    if n <= 0 then Failure(ArgumentException) else Success(TargetLength(n))
  }

  /** The signal continued periodically on both sides up to the target
      length: the last e samples, the signal, the first e samples, and one
      slot left at 0 when the gap target - n is odd. */
  function PeriodicExtensionTo(s: seq<real>, target: nat): (ext: seq<real>)
    requires 1 <= |s| <= target < 2 * |s|
    ensures |ext| == target
  {
    var n := |s|;
    var e := (target - n) / 2;
    s[n - e..] + s + s[..e] + seq(target - n - 2 * e, _ => 0.0)
  }

  /** The extension CalculateLHIPA uses: up to the next power of two. */
  function PeriodicExtension(s: seq<real>): (ext: seq<real>)
    requires |s| >= 1
    ensures |ext| == TargetLength(|s|)
  {
    PeriodicExtensionTo(s, TargetLength(|s|))
  }

  lemma ExtensionMiddle(s: seq<real>, target: nat, i: nat)
    requires 1 <= |s| <= target < 2 * |s|
    requires i < |s|
    ensures PeriodicExtensionTo(s, target)[(target - |s|) / 2 + i] == s[i]
  {
    var n := |s|;
    var e := (target - n) / 2;
    assert (s[n - e..] + s)[e + i] == s[i];
  }

  lemma ExtensionLeft(s: seq<real>, target: nat, i: nat)
    requires 1 <= |s| <= target < 2 * |s|
    requires i < (target - |s|) / 2
    ensures PeriodicExtensionTo(s, target)[i] == s[|s| - (target - |s|) / 2 + i]
  {
  }

  lemma ExtensionRight(s: seq<real>, target: nat, i: nat)
    requires 1 <= |s| <= target < 2 * |s|
    requires i < (target - |s|) / 2
    ensures PeriodicExtensionTo(s, target)[(target - |s|) / 2 + |s| + i] == s[i]
  {
    var n := |s|;
    var e := (target - n) / 2;
    assert (s[n - e..] + s + s[..e])[e + n + i] == s[..e][i];
  }

  lemma ExtensionPad(s: seq<real>, target: nat, i: nat)
    requires 1 <= |s| <= target < 2 * |s|
    requires 2 * ((target - |s|) / 2) + |s| <= i < target
    ensures PeriodicExtensionTo(s, target)[i] == 0.0
  {
  }

  lemma ExtensionArith(n: nat, target: nat)
    requires 1 <= n <= target < 2 * n
    ensures var e := (target - n) / 2;
      && 2 * e + n <= target <= 2 * e + n + 1
      && e < n
      && ((target - n) % 2 == 1 <==> 2 * e + n == target - 1)
  {
  }

  /** Entry j of the periodic extension, read off its position: with
      e = (target - n) / 2, sample n - e + j left of the signal, sample j - e
      inside it, sample j - e - n right of it, and 0 in the slot left over
      when target - n is odd. */
  function ExtensionAt(s: seq<real>, e: nat, j: nat): real
    requires e <= |s|
  {
    var n := |s|;
    if j < e then s[n - e + j]
    else if j < e + n then s[j - e]
    else if j < 2 * e + n then s[j - e - n]
    else 0.0
  }

  /** The extension agrees with ExtensionAt at every position, and in
      particular every index read is in range because e < n. */
  lemma ExtensionShape(s: seq<real>, target: nat)
    requires 1 <= |s| <= target < 2 * |s|
    ensures forall j :: 0 <= j < target ==> PeriodicExtensionTo(s, target)[j] == ExtensionAt(s, (target - |s|) / 2, j)
  {
    var n, e := |s|, (target - |s|) / 2;
    ExtensionArith(n, target);
    forall j | 0 <= j < target
      ensures PeriodicExtensionTo(s, target)[j] == ExtensionAt(s, (target - |s|) / 2, j)
    {
      if j < e {
        ExtensionLeft(s, target, j);
      } else if j < e + n {
        ExtensionMiddle(s, target, j - e);
      } else if j < 2 * e + n {
        ExtensionRight(s, target, j - e - n);
      } else {
        ExtensionPad(s, target, j);
      }
    }
  }

  /** A sequence that agrees with ExtensionAt at every position is the extension. */
  lemma ExtensionFromPositions(a: seq<real>, s: seq<real>, target: nat)
    requires 1 <= |s| <= target < 2 * |s| && |a| == target
    requires forall j :: 0 <= j < target ==> a[j] == ExtensionAt(s, (target - |s|) / 2, j)
    ensures a == PeriodicExtensionTo(s, target)
  {
    ExtensionShape(s, target);
  }

  /** A border loop of ExtendSignalToBinaryWithPeriodic: for i below count,
      extendedSignal[to + i] receives signal[from + i]. */
  method CopyBorder(signal: seq<real>, from: nat, extendedSignal: array<real>, to: nat, count: nat)
    requires from + count <= |signal| && to + count <= extendedSignal.Length
    modifies extendedSignal
    ensures forall j :: 0 <= j < extendedSignal.Length ==>
      extendedSignal[j] == if to <= j < to + count then signal[from + (j - to)] else old(extendedSignal[j])
  {
    for i := 0 to count
      invariant forall j :: 0 <= j < extendedSignal.Length ==>
        extendedSignal[j] == if to <= j < to + i then signal[from + (j - to)] else old(extendedSignal[j])
    {
      extendedSignal[to + i] := signal[from + i];
    }
  }

  /** The three copies of ExtendSignalToBinaryWithPeriodic into the zeroed
      extended array: the last e samples, the signal, the first e samples. */
  method FillExtension(samples: seq<real>, extendedSignal: array<real>, extensionLength: nat)
    requires extensionLength < |samples| && 2 * extensionLength + |samples| <= extendedSignal.Length
    requires forall j :: 0 <= j < extendedSignal.Length ==> extendedSignal[j] == 0.0
    modifies extendedSignal
    ensures forall j :: 0 <= j < extendedSignal.Length ==> extendedSignal[j] == ExtensionAt(samples, extensionLength, j)
  {
    var n, e := |samples|, extensionLength;
    CopyBorder(samples, n - e, extendedSignal, 0, e);
    ghost var left := extendedSignal[..];
    Arrays.Copy(samples, 0, extendedSignal, e, n);
    ghost var middle := extendedSignal[..];
    CopyBorder(samples, 0, extendedSignal, e + n, e);
    forall j | 0 <= j < extendedSignal.Length
      ensures extendedSignal[j] == ExtensionAt(samples, e, j)
    {
      if j < e {
        assert extendedSignal[j] == middle[j] == left[j];
      } else if j < e + n {
        assert extendedSignal[j] == middle[j];
      } else if j >= 2 * e + n {
        assert extendedSignal[j] == middle[j] == left[j];
      }
    }
  }

  /** ExtendSignalToBinaryWithPeriodic */
  method ExtendSignalToBinaryWithPeriodic(signal: array<real>) returns (r: Result<array<real>, LhipaError>)
    ensures r.Failure? <==> signal.Length == 0
    ensures r.Failure? ==> r.error == ArgumentException
    ensures r.Success? ==> fresh(r.value) && r.value[..] == PeriodicExtension(signal[..])
  {
    var signalLength := signal.Length;
    var next := NextPowerOfTwo(signalLength);
    if next.Failure? {
      return Failure(next.error);
    }
    var targetLength := next.value;
    var extensionLength := (targetLength - signalLength) / 2;
    var extendedSignal := new real[targetLength](_ => 0.0);
    var samples := signal[..];
    ExtensionArith(signalLength, targetLength);

    FillExtension(samples, extendedSignal, extensionLength);
    assert forall j :: 0 <= j < targetLength ==> extendedSignal[..][j] == extendedSignal[j];
    ExtensionFromPositions(extendedSignal[..], samples, targetLength);
    return Success(extendedSignal);
  }

  // ---------------------------------------------------------------------
  // Choice of levels

  /** The levels CalculateLHIPA uses for n samples: maxLevel = floor(log2(n / M)),
      hif = 1 and lof = maxLevel / 2. Once n >= 8 M both are rows of the
      decomposition of the extended signal, and lof >= hif. */
  lemma {:induction false} LevelChoice(n: nat, motherWaveLength: pos)
    requires n >= 8 * motherWaveLength
    ensures var maxLevel := Log2Floor(n / motherWaveLength);
      && maxLevel >= 3
      && 1 <= maxLevel / 2 <= maxLevel
      && maxLevel <= SharpWave.CalcExponent(TargetLength(n))
  {
    var q := n / motherWaveLength;
    QuotientBounds(n, motherWaveLength);
    assert Pow2(3) == 8;
    Log2FloorOfPow2(3);
    Log2FloorMonotone(8, q);
    Log2FloorMonotone(q, n);
    Log2FloorAtMostCeil(n);
    Log2FloorOfPow2(Log2Ceil(n));
  }

  lemma QuotientBounds(n: nat, m: pos)
    requires n >= 8 * m
    ensures 8 <= n / m <= n
  {
    var q, r := n / m, n % m;
    assert q * m + r == n && r < m;
    assert 8 * m < (q + 1) * m;
    MulCancel(8, q + 1, m);
    assert q <= q * m;
  }

  lemma MulCancel(a: int, b: int, m: pos)
    requires a * m < b * m
    ensures a < b
  {
  }

  // ---------------------------------------------------------------------
  // Bands

  /** The first half of a decomposition row (the engine's high-pass half). */
  function HighBand(row: seq<real>): (band: seq<real>)
    ensures |band| == |row| / 2
  {
    row[..|row| / 2]
  }

  /** The second half of a decomposition row (the engine's low-pass half). */
  function LowBand(row: seq<real>): (band: seq<real>)
    ensures |band| == |row| / 2
  {
    row[|row| / 2 .. 2 * (|row| / 2)]
  }

  /** For an even row the two halves are disjoint and together the whole row. */
  lemma BandsSplitRow(row: seq<real>)
    requires |row| % 2 == 0
    ensures HighBand(row) + LowBand(row) == row
    ensures forall i :: 0 <= i < |row| / 2 ==> HighBand(row)[i] == row[i] && LowBand(row)[i] == row[|row| / 2 + i]
  {
  }

  /** ExtractHighPassCoefficients; the level argument is not used. */
  method ExtractHighPassCoefficients(levelData: array<real>, level: int) returns (coefficients: array<real>)
    ensures fresh(coefficients) && coefficients[..] == HighBand(levelData[..])
  {
    var length := levelData.Length / 2;
    coefficients := new real[length](_ => 0.0);
    Arrays.Copy(levelData[..], 0, coefficients, 0, length);
    assert coefficients[..] == HighBand(levelData[..]);
  }

  /** ExtractLowPassCoefficients; the level argument is not used. */
  method ExtractLowPassCoefficients(levelData: array<real>, level: int) returns (coefficients: array<real>)
    ensures fresh(coefficients) && coefficients[..] == LowBand(levelData[..])
  {
    var length := levelData.Length / 2;
    coefficients := new real[length](_ => 0.0);
    Arrays.Copy(levelData[..], length, coefficients, 0, length);
    assert coefficients[..] == LowBand(levelData[..]);
  }

  // ---------------------------------------------------------------------
  // Scaling

  /** Every element multiplied by factor. */
  function Scaled(s: seq<real>, factor: real): (r: seq<real>)
    ensures |r| == |s|
  {
    seq(|s|, i requires 0 <= i < |s| => s[i] * factor)
  }

  /** Every element divided by factor. */
  function Divided(s: seq<real>, factor: real): (r: seq<real>)
    ensures |r| == |s|
  {
    seq(|s|, i requires 0 <= i < |s| => Quotient(s[i], factor))
  }

  /** Normalize undoes NormalizeByScale with the same non-zero factor. */
  lemma DividedUndoesScaled(s: seq<real>, factor: real)
    requires factor != 0.0
    ensures Divided(Scaled(s, factor), factor) == s
  {
    var d := Divided(Scaled(s, factor), factor);
    forall i | 0 <= i < |s|
      ensures d[i] == s[i]
    {
      assert d[i] * factor == s[i] * factor;
    }
  }

  /** NormalizeByScale: a new array with every element times the factor
      1 / sqrt(2^level), which the caller passes in. */
  method NormalizeByScale(data: array<real>, normalizationFactor: real) returns (normalizedData: array<real>)
    ensures fresh(normalizedData) && normalizedData[..] == Scaled(data[..], normalizationFactor)
  {
    normalizedData := new real[data.Length](_ => 0.0);
    for i := 0 to data.Length
      invariant forall j :: 0 <= j < i ==> normalizedData[j] == Scaled(data[..], normalizationFactor)[j]
    {
      normalizedData[i] := data[i] * normalizationFactor;
    }
    assert normalizedData[..] == Scaled(data[..], normalizationFactor);
  }

  /** Normalize: divides every element in place. */
  method Normalize(data: array<real>, factor: real)
    modifies data
    ensures data[..] == Divided(old(data[..]), factor)
  {
    for i := 0 to data.Length
      invariant forall j :: 0 <= j < i ==> data[j] == Quotient(old(data[j]), factor)
      invariant forall j :: i <= j < data.Length ==> data[j] == old(data[j])
    {
      data[i] := Quotient(data[i], factor);
    }
    assert data[..] == Divided(old(data[..]), factor);
  }

  // ---------------------------------------------------------------------
  // Ratios

  /** ComputeRatio: element-wise low / high over the shorter length, 0 where
      the high value is 0. */
  method ComputeRatio(cD_L: array<real>, cD_H: array<real>) returns (result: array<real>)
    ensures fresh(result) && result.Length == Min(cD_L.Length, cD_H.Length)
    ensures forall i :: 0 <= i < result.Length ==>
      if cD_H[i] == 0.0 then result[i] == 0.0 else result[i] * cD_H[i] == cD_L[i]
  {
    var size := Min(cD_L.Length, cD_H.Length);
    result := new real[size](_ => 0.0);
    for i := 0 to size
      invariant forall j :: 0 <= j < i ==> result[j] == Quotient(cD_L[j], cD_H[j])
    {
      result[i] := if cD_H[i] == 0.0 then 0.0 else cD_L[i] / cD_H[i];
    }
  }

  /** (int)Mathf.Pow(2, lf - hf): 2^(lf - hf), and 0 when lf < hf (the power
      is then below 1 and the cast truncates it). */
  function ScaleFactor(lf: nat, hf: nat): (sf: nat)
    ensures lf >= hf ==> sf >= 1
    ensures lf < hf ==> sf == 0
  {
    if lf >= hf then Pow2(lf - hf) else 0
  }

  /** ratioLength: the low band's length, capped at the high band's length
      times the scale factor (so 0 when lf < hf). */
  function RatioLength(low: seq<real>, high: seq<real>, lf: nat, hf: nat): (length: nat)
    ensures length <= |low|
    ensures lf < hf ==> length == 0
  {
    Min(|low|, |high| * ScaleFactor(lf, hf))
  }

  /** The high-band index read for low-band index i: (int)(i / scaleFactor).
      The scale factor is 2^(lf - hf), so the division is lf - hf halvings. */
  function HighIndex(i: nat, lf: nat, hf: nat): (k: nat)
    requires hf <= lf
    ensures k <= i
    ensures k * ScaleFactor(lf, hf) <= i < (k + 1) * ScaleFactor(lf, hf)
  {
    ShiftRightIsQuotient(i, lf - hf);
    ShiftRight(i, lf - hf)
  }

  /** The low/high ratio of CalculateLHIPA: the low band over the high band
      read at HighIndex(i), with the small epsilon added; 0 where that index
      is past the high band. */
  function AlignedRatio(low: seq<real>, high: seq<real>, lf: nat, hf: nat): (ratio: seq<real>)
    ensures |ratio| == RatioLength(low, high, lf, hf)
  {
    if lf < hf then []
    else
      seq(RatioLength(low, high, lf, hf), i requires 0 <= i < RatioLength(low, high, lf, hf) =>
        var k := HighIndex(i, lf, hf);
        if k < |high| then Quotient(low[i], high[k] + Epsilon) else 0.0)
  }

  /** The ratio loop of CalculateLHIPA. It only reads the two bands, so it
      works on their contents. */
  method LowHighRatio(normalizedLow: array<real>, normalizedHigh: array<real>, lfLevel: nat, hfLevel: nat)
    returns (ratio: array<real>)
    ensures fresh(ratio) && ratio[..] == AlignedRatio(normalizedLow[..], normalizedHigh[..], lfLevel, hfLevel)
  {
    var low, high := normalizedLow[..], normalizedHigh[..];
    var ratioLength := RatioLength(low, high, lfLevel, hfLevel);
    ratio := new real[ratioLength](_ => 0.0);
    for i := 0 to ratioLength
      invariant forall j :: 0 <= j < i ==> ratio[j] == AlignedRatio(low, high, lfLevel, hfLevel)[j]
    {
      ratio[i] := RatioEntry(low, high, lfLevel, hfLevel, i);
    }
    assert ratio[..] == AlignedRatio(low, high, lfLevel, hfLevel);
  }

  /** One pass of the ratio loop: low[i] / (high[highIndex] + epsilon) while
      the high-band index is in range, 0 past it. */
  method RatioEntry(low: seq<real>, high: seq<real>, lfLevel: nat, hfLevel: nat, i: nat) returns (value: real)
    requires i < RatioLength(low, high, lfLevel, hfLevel)
    ensures value == AlignedRatio(low, high, lfLevel, hfLevel)[i]
  {
    var highIndex := HighIndex(i, lfLevel, hfLevel);
    if highIndex < |high| {
      value := Quotient(low[i], high[highIndex] + Epsilon);
    } else {
      value := 0.0;
    }
  }

  /** With bands of equal length, the ratio is as long as the bands and the
      zero-fill branch is never taken: every high-band index is in range. */
  lemma ZeroFillUnreachable(low: seq<real>, high: seq<real>, lf: nat, hf: nat)
    requires |low| == |high| && hf <= lf
    ensures |AlignedRatio(low, high, lf, hf)| == |low|
    ensures forall i :: 0 <= i < |low| ==>
      HighIndex(i, lf, hf) < |high|
      && AlignedRatio(low, high, lf, hf)[i] == Quotient(low[i], high[HighIndex(i, lf, hf)] + Epsilon)
  {
    MulAtLeast(|high|, ScaleFactor(lf, hf));
  }

  lemma MulAtLeast(a: nat, b: nat)
    requires b >= 1
    ensures a * b >= a
  {
  }

  // ---------------------------------------------------------------------
  // Modulus maxima

  /** Boundary policy: the missing neighbour of an end element is itself. */
  function LeftNeighbour(m: seq<real>, i: nat): real
    requires i < |m|
  {
    if i >= 1 then m[i - 1] else m[i]
  }

  function RightNeighbour(m: seq<real>, i: nat): real
    requires i < |m|
  {
    if i < |m| - 1 then m[i + 1] else m[i]
  }

  /** m[i] is at least both neighbours and above at least one of them. */
  predicate IsModulusMaximum(m: seq<real>, i: nat)
    requires i < |m|
  {
    var ll, oo, rr := LeftNeighbour(m, i), m[i], RightNeighbour(m, i);
    (ll <= oo && oo >= rr) && (ll < oo || oo > rr)
  }

  /** What the boundary rule means: a single sample is never a peak, an end
      sample is a peak exactly when it is above its one neighbour, and an
      inner sample is a peak when it is at least both neighbours and above one. */
  lemma BoundaryRule(m: seq<real>, i: nat)
    requires i < |m|
    ensures |m| == 1 ==> !IsModulusMaximum(m, i)
    ensures |m| >= 2 && i == 0 ==> (IsModulusMaximum(m, i) <==> m[0] > m[1])
    ensures |m| >= 2 && i == |m| - 1 ==> (IsModulusMaximum(m, i) <==> m[i] > m[i - 1])
    ensures 0 < i < |m| - 1 ==>
      (IsModulusMaximum(m, i) <==> m[i - 1] <= m[i] && m[i] >= m[i + 1] && (m[i - 1] < m[i] || m[i] > m[i + 1]))
  {
  }

  function Moduli(d: seq<real>): (m: seq<real>)
    ensures |m| == |d|
  {
    seq(|d|, i requires 0 <= i < |d| => Abs(d[i]))
  }

  /** ModMax as a function: |d[i]| at a modulus maximum not below the
      threshold, 0 everywhere else. */
  function ModulusMaxima(d: seq<real>, threshold: real): (t: seq<real>)
    ensures |t| == |d|
  {
    var m := Moduli(d);
    seq(|d|, i requires 0 <= i < |d| =>
      if IsModulusMaximum(m, i) then (if Abs(d[i]) < threshold then 0.0 else Abs(d[i])) else 0.0)
  }

  /** ModMax: the first loop stores the moduli in m, the second marks the maxima in t. */
  method ModMax(d: array<real>, threshold: real) returns (t: array<real>)
    ensures fresh(t) && t[..] == ModulusMaxima(d[..], threshold)
  {
    var length := d.Length;
    var m := new real[length](_ => 0.0);
    t := new real[length](_ => 0.0);

    for i := 0 to length
      invariant forall j :: 0 <= j < i ==> m[j] == Abs(d[j])
    {
      m[i] := Abs(d[i]);
    }
    assert m[..] == Moduli(d[..]);
    MarkMaxima(d, m, threshold, t);
  }

  /** The second loop of ModMax: t[i] is |d[i]| at a modulus maximum of m not
      below the threshold and 0 elsewhere. Only t changes. */
  method MarkMaxima(d: array<real>, m: array<real>, threshold: real, t: array<real>)
    requires m[..] == Moduli(d[..]) && t.Length == d.Length && t != m && t != d
    modifies t
    ensures t[..] == ModulusMaxima(d[..], threshold)
  {
    var length := d.Length;
    ghost var moduli := m[..];
    ghost var maxima := ModulusMaxima(d[..], threshold);
    for i := 0 to length
      invariant forall j :: 0 <= j < i ==> t[j] == maxima[j]
    {
      var ll := if i >= 1 then m[i - 1] else m[i];
      var oo := m[i];
      var rr := if i < length - 1 then m[i + 1] else m[i];
      assert IsModulusMaximum(moduli, i) <==> (ll <= oo && oo >= rr) && (ll < oo || oo > rr);
      assert maxima[i] == if IsModulusMaximum(moduli, i) then (if Abs(d[i]) < threshold then 0.0 else Abs(d[i])) else 0.0;
      if (ll <= oo && oo >= rr) && (ll < oo || oo > rr) {
        var mag := Abs(d[i]);
        if mag < threshold {
          t[i] := 0.0;
        } else {
          t[i] := mag;
        }
      } else {
        t[i] := 0.0;
      }
    }
    assert t[..] == maxima;
  }

  /** Each entry is 0 or |d[i]|; it is non-zero exactly where |d[i]| is not
      below the threshold, at least both neighbours' moduli (itself at the
      ends) and above at least one of them. */
  lemma ModulusMaximaEntries(d: seq<real>, threshold: real, i: nat)
    requires i < |d|
    ensures var t := ModulusMaxima(d, threshold);
      var ll := if i >= 1 then Abs(d[i - 1]) else Abs(d[i]);
      var rr := if i < |d| - 1 then Abs(d[i + 1]) else Abs(d[i]);
      && (t[i] == 0.0 || t[i] == Abs(d[i]))
      && (t[i] != 0.0 <==>
            ll <= Abs(d[i]) && Abs(d[i]) >= rr && (ll < Abs(d[i]) || Abs(d[i]) > rr)
            && Abs(d[i]) >= threshold)
  {
  }

  /** Raising the threshold only removes maxima: every entry that survives
      the higher threshold has the same value under the lower one, so the
      number of maxima cannot grow. */
  lemma ModulusMaximaThresholdMonotone(d: seq<real>, lower: real, higher: real)
    requires lower <= higher
    ensures forall i :: 0 <= i < |d| && ModulusMaxima(d, higher)[i] != 0.0 ==>
      ModulusMaxima(d, lower)[i] == ModulusMaxima(d, higher)[i]
    ensures CountNonZero(ModulusMaxima(d, higher)) <= CountNonZero(ModulusMaxima(d, lower))
  {
    CountMonotone(ModulusMaxima(d, lower), ModulusMaxima(d, higher));
  }

  /** A constant signal has no modulus maxima. */
  lemma ModulusMaximaOfConstant(d: seq<real>, c: real, threshold: real)
    requires forall i :: 0 <= i < |d| ==> d[i] == c
    ensures forall i :: 0 <= i < |d| ==> ModulusMaxima(d, threshold)[i] == 0.0
    ensures CountNonZero(ModulusMaxima(d, threshold)) == 0
  {
    CountZeroIff(ModulusMaxima(d, threshold));
  }

  // ---------------------------------------------------------------------
  // Universal threshold ("less" mode)

  /** Keeps the entries whose modulus is at most the threshold, zeroes the rest. */
  function KeepSmall(data: seq<real>, threshold: real): (r: seq<real>)
    ensures |r| == |data|
  {
    seq(|data|, i requires 0 <= i < |data| => if Abs(data[i]) > threshold then 0.0 else data[i])
  }

  /** UniversalThreshold */
  method UniversalThreshold(data: array<real>, threshold: real) returns (result: array<real>)
    ensures fresh(result) && result[..] == KeepSmall(data[..], threshold)
  {
    result := new real[data.Length](_ => 0.0);
    for i := 0 to data.Length
      invariant forall j :: 0 <= j < i ==> result[j] == KeepSmall(data[..], threshold)[j]
    {
      result[i] := if Abs(data[i]) > threshold then 0.0 else data[i];
    }
    assert result[..] == KeepSmall(data[..], threshold);
  }

  /** Every survivor is an unchanged input entry of modulus at most the
      threshold, applying the threshold twice changes nothing, and the
      number of non-zero entries never grows. */
  lemma KeepSmallProperties(data: seq<real>, threshold: real)
    ensures forall i :: 0 <= i < |data| && KeepSmall(data, threshold)[i] != 0.0 ==>
      KeepSmall(data, threshold)[i] == data[i] && Abs(data[i]) <= threshold
    ensures KeepSmall(KeepSmall(data, threshold), threshold) == KeepSmall(data, threshold)
    ensures CountNonZero(KeepSmall(data, threshold)) <= CountNonZero(data)
  {
    CountMonotone(data, KeepSmall(data, threshold));
  }

  /** A larger threshold keeps every entry a smaller one keeps. */
  lemma KeepSmallThresholdMonotone(data: seq<real>, lower: real, higher: real)
    requires lower <= higher
    ensures CountNonZero(KeepSmall(data, lower)) <= CountNonZero(KeepSmall(data, higher))
  {
    CountMonotone(KeepSmall(data, higher), KeepSmall(data, lower));
  }

  /** For a fixed universal threshold, raising the ModMax cut-off never adds a
      counted maximum. The pipeline recomputes lambda from the maxima, so this
      holds for the whole computation only when lambda does not move. */
  lemma {:induction false} CountMonotoneInCutOff(d: seq<real>, lower: real, higher: real, lambda: real)
    requires lower <= higher
    ensures CountNonZero(KeepSmall(ModulusMaxima(d, higher), lambda)) <=
            CountNonZero(KeepSmall(ModulusMaxima(d, lower), lambda))
  {
    ModulusMaximaThresholdMonotone(d, lower, higher);
    CountMonotone(KeepSmall(ModulusMaxima(d, lower), lambda), KeepSmall(ModulusMaxima(d, higher), lambda));
  }

  // ---------------------------------------------------------------------
  // Counting and the final formula

  /** The maximaCount loop. */
  method CountMaxima(thresholded: array<real>) returns (maximaCount: nat)
    ensures maximaCount == CountNonZero(thresholded[..])
    ensures maximaCount <= thresholded.Length
  {
    maximaCount := 0;
    for i := 0 to thresholded.Length
      invariant maximaCount == CountNonZero(thresholded[..i])
    {
      assert thresholded[..i + 1][..i] == thresholded[..i];
      if Abs(thresholded[i]) > 0.0 {
        maximaCount := maximaCount + 1;
      }
    }
    assert thresholded[..] == thresholded[..thresholded.Length];
  }

  /** (maximaCount / duration) / samplingRate with samplingRate = n / duration:
      the count per sample, whatever the duration. */
  function RawLhipa(maximaCount: nat, n: pos, durationInSeconds: real): (lhipa: real)
    requires durationInSeconds > 0.0
    ensures lhipa == maximaCount as real / n as real
    ensures maximaCount < n ==> 0.0 <= lhipa < 1.0
  {
    var samplingRate := n as real / durationInSeconds;
    RawLhipaCancels(maximaCount, n, durationInSeconds);
    (maximaCount as real / durationInSeconds) / samplingRate
  }

  lemma RawLhipaCancels(c: nat, n: pos, d: real)
    requires d > 0.0
    ensures (c as real / d) / (n as real / d) == c as real / n as real
    ensures c < n ==> 0.0 <= c as real / n as real < 1.0
  {
    var q := c as real / n as real;
    assert q * (n as real / d) == c as real / d;
  }

  /** The correction step: divide by a non-zero multiplicative parameter, then
      subtract the additive parameter when the undivided value exceeds it. */
  function Corrected(lhipa: real, c: Corrections): (r: real)
    ensures c == NoCorrection ==> r == lhipa
    ensures c.multiplicative == 0.0 && c.additive >= 0.0 && lhipa >= 0.0 ==> r >= 0.0
    ensures c.multiplicative != 0.0 ==> r * c.multiplicative + (if lhipa > c.additive then c.additive * c.multiplicative else 0.0) == lhipa
  {
    var shift := if lhipa > c.additive then c.additive else 0.0;
    if c.multiplicative != 0.0 then lhipa / c.multiplicative - shift else lhipa - shift
  }

  /** The comparison uses the value before the division, so with a
      multiplicative parameter the result can fall below 0. */
  lemma CorrectionComparesUndividedValue()
    ensures Corrected(0.2, Corrections(2.0, 0.15)) == -0.05
  {
  }

  // ---------------------------------------------------------------------
  // 32-bit ranges

  /** NextPowerOfTwo returns a C# int: up to 2^30 samples the power of two it
      computes is at most 2^30 and so in int range. */
  lemma TargetLengthFitsInt32(n: pos)
    requires n <= Pow2(30)
    ensures TargetLength(n) <= Pow2(30)
  {
    TargetLengthAtMost(n, 30);
  }

  /** A power-of-two bound on the input bounds the target length too. */
  lemma TargetLengthAtMost(n: pos, e: nat)
    requires n <= Pow2(e)
    ensures TargetLength(n) <= Pow2(e)
  {
    var k := Log2Ceil(n);
    assert Pow2(e + 1) == 2 * Pow2(e);
    Pow2StrictInverse(k, e + 1);
    Pow2Monotone(k, e);
  }

  /** ratioLength takes the minimum with highLength * 2^(lof - hif), a C# int
      product. For a mother wavelength of at least 16 and at most 2^23 samples
      that product is at most 2^30, so it does not wrap around. */
  lemma RatioProductFitsInt32(n: nat, motherWaveLength: pos)
    requires motherWaveLength >= 16 && 8 * motherWaveLength <= n <= Pow2(23)
    ensures (TargetLength(n) / 2) * ScaleFactor(MaxLevel(n, motherWaveLength) / 2, 1) <= Pow2(30)
  {
    var c := HighBandAtMost(n, 23);
    LevelAtMost(n, motherWaveLength, 23);
    ProductAtMost(TargetLength(n) / 2, c, MaxLevel(n, motherWaveLength) / 2, 22, 8);
  }

  /** 2^c * 2^(lof - 1) <= 2^(a + b) once c <= a and lof - 1 <= b. */
  lemma ProductAtMost(high: nat, c: nat, lof: nat, a: nat, b: nat)
    requires high == Pow2(c) && c <= a && lof <= b + 1
    ensures high * ScaleFactor(lof, 1) <= Pow2(a + b)
  {
    if lof >= 1 {
      Pow2Monotone(c, a);
      Pow2Monotone(lof - 1, b);
      MulBoth(high, Pow2(a), Pow2(lof - 1), Pow2(b));
      Pow2Add(a, b);
    }
  }

  /** Up to 2^e samples the high band, half the target length, is 2^c long
      with c < e. */
  lemma HighBandAtMost(n: nat, e: nat) returns (c: nat)
    requires 2 <= n <= Pow2(e)
    ensures TargetLength(n) / 2 == Pow2(c) && c < e
  {
    var k := Log2Ceil(n);
    assert Pow2(e + 1) == 2 * Pow2(e);
    Pow2StrictInverse(k, e + 1);
    assert k != 0;
    c := k - 1;
    assert Pow2(k) == 2 * Pow2(c);
  }

  /** With a mother wavelength of at least 16, 2^maxLevel * 16 <= n, so up to
      2^e samples maxLevel is at most e - 4. */
  lemma LevelAtMost(n: nat, motherWaveLength: pos, e: nat)
    requires motherWaveLength >= 16 && 8 * motherWaveLength <= n <= Pow2(e)
    ensures MaxLevel(n, motherWaveLength) + 4 <= e
  {
    var q := n / motherWaveLength;
    QuotientBounds(n, motherWaveLength);
    ExponentAtMost(Log2Floor(q), q, motherWaveLength, n, e);
  }

  /** 2^m <= q and q * M <= n <= 2^e with M >= 16 = 2^4 give m + 4 <= e. */
  lemma ExponentAtMost(m: nat, q: nat, motherWaveLength: nat, n: nat, e: nat)
    requires Pow2(m) <= q && q * motherWaveLength <= n <= Pow2(e) && motherWaveLength >= 16
    ensures m + 4 <= e
  {
    MulMonotone(Pow2(m), 16, motherWaveLength);
    MulMonotone(motherWaveLength, Pow2(m), q);
    Pow2Add(m, 4);
    assert Pow2(4) == 16;
    assert Pow2(e + 1) == 2 * Pow2(e);
    Pow2StrictInverse(m + 4, e + 1);
  }

  // ---------------------------------------------------------------------
  // The whole computation

  /** maxLevel = floor(log2(n / M)) for n samples and mother wavelength M. */
  function MaxLevel(n: nat, motherWaveLength: pos): (maxLevel: nat)
    requires n >= 8 * motherWaveLength
    ensures maxLevel >= 3 && maxLevel <= SharpWave.CalcExponent(TargetLength(n))
  {
    LevelChoice(n, motherWaveLength);
    Log2Floor(n / motherWaveLength)
  }

  /** The normalised high band: the first half of row hif = 1 of the
      decomposition of the extended samples, times scaleOf(1). */
  function NormalizedHigh(samples: seq<real>, transform: SharpWave.WaveletTransform, numerics: Numerics): (band: seq<real>)
    requires |samples| >= 1
    requires transform.PreservesLength()
    ensures |band| == TargetLength(|samples|) / 2
  {
    Scaled(HighBand(transform.Row(PeriodicExtension(samples), 1)), numerics.scaleOf(1))
  }

  /** The normalised low band: the second half of row lof of the
      decomposition of the extended samples, times scaleOf(lof). */
  function NormalizedLow(samples: seq<real>, lof: nat, transform: SharpWave.WaveletTransform, numerics: Numerics): (band: seq<real>)
    requires |samples| >= 1
    requires transform.PreservesLength()
    ensures |band| == TargetLength(|samples|) / 2
  {
    Scaled(LowBand(transform.Row(PeriodicExtension(samples), lof)), numerics.scaleOf(lof))
  }

  /** The low/high ratio CalculateLHIPA computes, with hif = 1 and
      lof = maxLevel / 2. The bands are equally long, so the ratio covers the
      whole low band, every high-band index is in range and every entry
      divides by a high-band value: the zero fill never happens. */
  function LevelRatio(samples: seq<real>, transform: SharpWave.WaveletTransform, numerics: Numerics): (ratio: seq<real>)
    requires |samples| >= 8 * transform.wavelet.motherWaveLength
    requires transform.PreservesLength()
    ensures |ratio| == TargetLength(|samples|) / 2 < |samples|
    ensures var lof := MaxLevel(|samples|, transform.wavelet.motherWaveLength) / 2;
      DividesByHighBand(ratio, NormalizedLow(samples, lof, transform, numerics), NormalizedHigh(samples, transform, numerics), lof)
  {
    var lof := MaxLevel(|samples|, transform.wavelet.motherWaveLength) / 2;
    var high := NormalizedHigh(samples, transform, numerics);
    var low := NormalizedLow(samples, lof, transform, numerics);
    var ratio := AlignedRatio(low, high, lof, 1);
    RatioOfEqualBands(ratio, low, high, lof);
    ratio
  }

  /** Every entry i of the ratio is low[i] / (high[i / 2^(lf - 1)] + epsilon),
      with both indices in range: no entry is a zero fill. */
  predicate DividesByHighBand(ratio: seq<real>, low: seq<real>, high: seq<real>, lf: nat)
  {
    && 1 <= lf
    && forall i :: 0 <= i < |ratio| ==>
         && i < |low|
         && HighIndex(i, lf, 1) < |high|
         && ratio[i] == Quotient(low[i], high[HighIndex(i, lf, 1)] + Epsilon)
  }

  /** The ratio of two bands of equal length, hif = 1, divides by the high band throughout. */
  lemma RatioOfEqualBands(ratio: seq<real>, low: seq<real>, high: seq<real>, lf: nat)
    requires |low| == |high| && 1 <= lf && ratio == AlignedRatio(low, high, lf, 1)
    ensures |ratio| == |low|
    ensures DividesByHighBand(ratio, low, high, lf)
  {
    ZeroFillUnreachable(low, high, lf, 1);
  }

  /** The thresholded maxima sequence CalculateLHIPA counts, for samples that
      pass validation. Its length is half the extended length, below n. */
  function ThresholdedMaxima(samples: seq<real>, modMaxCorrectionThreshold: real,
                             transform: SharpWave.WaveletTransform, numerics: Numerics): (t: seq<real>)
    requires |samples| >= 8 * transform.wavelet.motherWaveLength
    requires transform.PreservesLength()
    ensures |t| < |samples|
  {
    var modulusMaxima := ModulusMaxima(LevelRatio(samples, transform, numerics), modMaxCorrectionThreshold);
    KeepSmall(modulusMaxima, numerics.universalThreshold(modulusMaxima))
  }

  /** CalculateLHIPA. The wavelet packet transform over Symlet16 and the
      floating point numerics come in as parameters; so do the two
      correction parameters. */
  method CalculateLhipa(pupilData: array?<real>, durationInSeconds: real, modMaxCorrectionThreshold: real,
                        transform: SharpWave.WaveletTransform, numerics: Numerics, corrections: Corrections)
    returns (r: Result<real, LhipaError>)
    requires transform.PreservesLength()
    ensures pupilData == null || pupilData.Length == 0 || durationInSeconds <= 0.0 ==>
      r == Failure(ArgumentException)
    ensures (pupilData != null && 0 < pupilData.Length < 8 * transform.wavelet.motherWaveLength
             && durationInSeconds > 0.0) ==> r == Failure(InvalidOperationException)
    ensures (pupilData != null && pupilData.Length >= 8 * transform.wavelet.motherWaveLength
             && durationInSeconds > 0.0) ==>
      r == Success(Corrected(
             RawLhipa(CountNonZero(ThresholdedMaxima(pupilData[..], modMaxCorrectionThreshold, transform, numerics)),
                      pupilData.Length, durationInSeconds),
             corrections))
    ensures r.Success? && corrections == NoCorrection ==> 0.0 <= r.value < 1.0
  {
    if pupilData == null || pupilData.Length == 0 || durationInSeconds <= 0.0 {
      return Failure(ArgumentException);
    }
    var symlet16 := transform.wavelet;
    if pupilData.Length < symlet16.motherWaveLength * 8 {
      return Failure(InvalidOperationException);
    }
    ghost var samples := pupilData[..];
    var n: pos := pupilData.Length;

    var extension := ExtendSignalToBinaryWithPeriodic(pupilData);
    var extendedSignal := extension.value;

    var maxLevel := MaxLevel(n, symlet16.motherWaveLength);
    var hif := 1;
    var lof := maxLevel / 2;

    var decompositionMatrix := transform.Decompose(extendedSignal);
    var cD_H := ExtractHighPassCoefficients(decompositionMatrix[hif], hif);
    var cD_L := ExtractLowPassCoefficients(decompositionMatrix[lof], lof);

    var hfLevel, lfLevel := 1, maxLevel / 2;
    var normalizedHigh := NormalizeByScale(cD_H, numerics.scaleOf(hfLevel));
    var normalizedLow := NormalizeByScale(cD_L, numerics.scaleOf(lfLevel));
    assert normalizedHigh[..] == NormalizedHigh(samples, transform, numerics);
    assert normalizedLow[..] == NormalizedLow(samples, lfLevel, transform, numerics);

    var ratio := LowHighRatio(normalizedLow, normalizedHigh, lfLevel, hfLevel);
    assert ratio[..] == LevelRatio(samples, transform, numerics);
    var modulusMaxima := ModMax(ratio, modMaxCorrectionThreshold);
    var lambdaUniv := numerics.universalThreshold(modulusMaxima[..]);
    var thresholded := UniversalThreshold(modulusMaxima, lambdaUniv);
    assert thresholded[..] == ThresholdedMaxima(samples, modMaxCorrectionThreshold, transform, numerics);

    var maximaCount := CountMaxima(thresholded);
    var lhipa := RawLhipa(maximaCount, n, durationInSeconds);
    return Success(Corrected(lhipa, corrections));
  }
}
