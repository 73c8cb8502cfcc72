/** The Python reference implementation of LHIPA (lhipa.py, and the identical
    modmax and lhipa of lhipa_test.py): modulus maxima over a list, the
    level choice, the scaling of the detail coefficients, the low/high ratio
    with its multiplying index, the maxima count and the final formula.
    The PyWavelets calls and the floating point numerics are parameters. */
module PyLhipa {
  import opened Arith
  import opened Counting
  import Lhipa

  /** The exception the Python code can raise itself. */
  datatype PyError = ZeroDivisionError

  /** The library calls lhipa makes, for the 'sym16' wavelet:
      dwtMaxLevel(n) is pywt.dwt_max_level(n, filter_len = 32),
      downcoef(d, level) is pywt.downcoef('d', d, 'sym16', 'per', level),
      sqrtPow2(level) is math.sqrt(2**level), and
      universalThreshold(m) is np.std(m) * math.sqrt(2 log2 |m|). */
  datatype PyWavelets = PyWavelets(
    dwtMaxLevel: nat -> nat,
    downcoef: (seq<real>, nat) -> seq<real>,
    sqrtPow2: nat -> PosReal,
    universalThreshold: seq<real> -> real)

  // ---------------------------------------------------------------------
  // modmax

  /** modmax as a function: |d[i]| where the modulus is a peak by the same
      neighbour rule as the C# code (itself at the ends), 0 elsewhere. */
  function ModulusMaxima(d: seq<real>): (t: seq<real>)
    ensures |t| == |d|
  {
    var m := Lhipa.Moduli(d);
    seq(|d|, i requires 0 <= i < |d| => if Lhipa.IsModulusMaximum(m, i) then Abs(d[i]) else 0.0)
  }

  /** modmax: the moduli by a comprehension, then one assignment to t[i] per index. */
  method Modmax(d: seq<real>) returns (t: seq<real>)
    ensures t == ModulusMaxima(d)
  {
    var m := seq(|d|, i requires 0 <= i < |d| => Abs(d[i]));
    t := seq(|d|, _ => 0.0);
    for i := 0 to |d|
      invariant |t| == |d|
      invariant forall j :: 0 <= j < i ==> t[j] == ModulusMaxima(d)[j]
    {
      var ll := if i >= 1 then m[i - 1] else m[i];
      var oo := m[i];
      var rr := if i < |d| - 1 then m[i + 1] else m[i];
      assert m == Lhipa.Moduli(d);
      if (ll <= oo && oo >= rr) && (ll < oo || oo > rr) {
        t := t[i := Abs(d[i])];
      } else {
        t := t[i := 0.0];
      }
    }
  }

  /** Each entry is 0 or |d[i]|, and it is non-zero exactly at a peak of the
      moduli: a peak is above one of its neighbours, hence above 0. */
  lemma ModulusMaximaEntries(d: seq<real>, i: nat)
    requires i < |d|
    ensures ModulusMaxima(d)[i] == 0.0 || ModulusMaxima(d)[i] == Abs(d[i])
    ensures ModulusMaxima(d)[i] != 0.0 <==> Lhipa.IsModulusMaximum(Lhipa.Moduli(d), i)
  {
  }

  /** The Python modmax is the C# ModMax with a threshold at most 0: the
      C# cut-off |d[i]| < threshold never applies to a modulus. */
  lemma ModulusMaximaMatchesCSharp(d: seq<real>, threshold: real)
    requires threshold <= 0.0
    ensures ModulusMaxima(d) == Lhipa.ModulusMaxima(d, threshold)
  {
    assert forall i :: 0 <= i < |d| ==> ModulusMaxima(d)[i] == Lhipa.ModulusMaxima(d, threshold)[i];
  }

  /** With a positive threshold the C# ModMax drops exactly the Python maxima
      whose modulus is below it. */
  lemma CSharpThresholdDropsSmallMaxima(d: seq<real>, threshold: real, i: nat)
    requires i < |d|
    ensures Lhipa.ModulusMaxima(d, threshold)[i] ==
      if Abs(d[i]) < threshold then 0.0 else ModulusMaxima(d)[i]
  {
  }

  // ---------------------------------------------------------------------
  // Levels and scaling

  /** hif, lof = 1, max_level // 2 */
  function Levels(maxLevel: nat): (levels: (nat, nat))
    ensures levels.0 == 1 && 2 * levels.1 <= maxLevel <= 2 * levels.1 + 1
  {
    (1, maxLevel / 2)
  }

  /** Python divides by sqrt(2^level) where C# multiplies by its inverse:
      both scale every element by the same factor. */
  lemma DivisionIsScaling(c: seq<real>, divisor: PosReal)
    ensures Lhipa.Divided(c, divisor) == Lhipa.Scaled(c, 1.0 / divisor)
  {
    forall i | 0 <= i < |c|
      ensures Lhipa.Divided(c, divisor)[i] == Lhipa.Scaled(c, 1.0 / divisor)[i]
    {
      assert Lhipa.Divided(c, divisor)[i] * divisor == c[i];
      assert (c[i] * (1.0 / divisor)) * divisor == c[i];
    }
  }

  // ---------------------------------------------------------------------
  // The low/high ratio

  /** int(((2**lof) / (2**hif)) * i): the power of two is exact in floating
      point, so this is 2^(lof - hif) * i when lof >= hif, and i halved
      hif - lof times (truncated) when lof < hif. */
  function HfIndex(lof: nat, hif: nat, i: nat): (k: nat)
    ensures lof >= hif ==> k >= i
    ensures lof < hif ==> k <= i
  {
    if lof >= hif then
      MulAtLeastLeft(Pow2(lof - hif), i);
      Pow2(lof - hif) * i
    else ShiftRight(i, hif - lof)
  }

  lemma MulAtLeastLeft(a: nat, b: nat)
    requires a >= 1
    ensures a * b >= b
  {
  }

  /** The ratio list: cD_L[i] / cD_H[HfIndex(i)] where that index is inside
      cD_H (no epsilon is added), 0.0 past its end. */
  function AlignedRatio(cD_L: seq<real>, cD_H: seq<real>, lof: nat, hif: nat): (ratio: seq<real>)
    ensures |ratio| == |cD_L|
  {
    seq(|cD_L|, i requires 0 <= i < |cD_L| =>
      var k := HfIndex(lof, hif, i);
      if k < |cD_H| then Quotient(cD_L[i], cD_H[k]) else 0.0)
  }

  /** The ratio loop, appending one entry per low-band index. */
  method LowHighRatio(cD_L: seq<real>, cD_H: seq<real>, lof: nat, hif: nat) returns (cD_LH: seq<real>)
    ensures cD_LH == AlignedRatio(cD_L, cD_H, lof, hif)
  {
    cD_LH := [];
    for i := 0 to |cD_L|
      invariant cD_LH == AlignedRatio(cD_L, cD_H, lof, hif)[..i]
    {
      var hfIndex := HfIndex(lof, hif, i);
      if hfIndex < |cD_H| {
        cD_LH := cD_LH + [Quotient(cD_L[i], cD_H[hfIndex])];
      } else {
        cD_LH := cD_LH + [0.0];
      }
    }
  }

  /** The two implementations align the bands differently: Python multiplies
      by 2^(lof - hif) where C# divides by it, so the indices agree only when
      the levels are equal or at index 0. */
  lemma {:induction false} IndexDivergence(lof: nat, hif: nat, i: nat)
    requires hif <= lof
    ensures HfIndex(lof, hif, i) == Lhipa.HighIndex(i, lof, hif) <==> lof == hif || i == 0
  {
    var k := lof - hif;
    if k == 0 {
      assert Pow2(0) == 1;
    } else if i > 0 {
      Pow2Monotone(1, k);
      assert Pow2(1) == 2;
      MulAtLeastTwice(Pow2(k), i);
    }
  }

  lemma MulAtLeastTwice(a: nat, b: nat)
    requires a >= 2
    ensures a * b >= 2 * b
  {
  }

  /** Every Python index is inside cD_H as soon as the index of the last
      low-band entry is: 2^(lof - hif) * (|cD_L| - 1) < |cD_H|. pywt's 'per'
      mode gives level L ceil(N / 2^L) coefficients, and for hif = 1 those
      lengths meet this bound for every N, so no entry is zero-filled. */
  lemma NoZeroFillForDownsampledBands(cD_L: seq<real>, cD_H: seq<real>, lof: nat, hif: nat)
    requires hif <= lof
    requires Pow2(lof - hif) * (|cD_L| - 1) < |cD_H|
    ensures forall i :: 0 <= i < |cD_L| ==>
      HfIndex(lof, hif, i) < |cD_H| && AlignedRatio(cD_L, cD_H, lof, hif)[i] == Quotient(cD_L[i], cD_H[HfIndex(lof, hif, i)])
  {
    forall i | 0 <= i < |cD_L|
      ensures HfIndex(lof, hif, i) < |cD_H|
    {
      MulMonotone(Pow2(lof - hif), i, |cD_L| - 1);
    }
  }

  /** Bands of equal length, as the C# packet decomposition produces them,
      would make the Python index overrun: the last entry is zero-filled. */
  lemma ZeroFillForEqualBands(cD_L: seq<real>, cD_H: seq<real>, lof: nat, hif: nat)
    requires hif < lof
    requires |cD_L| == |cD_H| >= 2
    ensures AlignedRatio(cD_L, cD_H, lof, hif)[|cD_L| - 1] == 0.0
  {
    IndexDivergence(lof, hif, |cD_L| - 1);
    var k := lof - hif;
    Pow2Monotone(1, k);
    assert Pow2(1) == 2;
    MulAtLeastTwice(Pow2(k), |cD_L| - 1);
  }

  // ---------------------------------------------------------------------
  // The whole computation

  /** (float(ctr) / duration) / (len(d) / duration), raising ZeroDivisionError
      for a zero duration or an empty d. Any other duration, negative ones
      included, cancels. */
  function LhipaValue(ctr: nat, n: nat, durationInSeconds: real): (r: Result<real, PyError>)
    ensures r.Failure? <==> durationInSeconds == 0.0 || n == 0
    ensures r.Success? ==> r.value == ctr as real / n as real && r.value >= 0.0
    ensures r.Success? && ctr < n ==> r.value < 1.0
  {
    if durationInSeconds == 0.0 then Failure(ZeroDivisionError)
    else
      var samplingRate := n as real / durationInSeconds;
      if samplingRate == 0.0 then Failure(ZeroDivisionError)
      else
        Cancels(ctr, n, durationInSeconds);
        Success((ctr as real / durationInSeconds) / samplingRate)
  }

  lemma Cancels(c: nat, n: nat, d: real)
    requires d != 0.0 && n >= 1
    ensures (c as real / d) / (n as real / d) == c as real / n as real
  {
    var q := c as real / n as real;
    assert q * (n as real / d) == c as real / d;
  }

  /** The normalised detail coefficients of level `level`. */
  function NormalizedDetail(d: seq<real>, level: nat, pywt: PyWavelets): (c: seq<real>)
    ensures |c| == |pywt.downcoef(d, level)|
  {
    Lhipa.Divided(pywt.downcoef(d, level), pywt.sqrtPow2(level))
  }

  /** The ratio lhipa builds from d. */
  function Ratio(d: seq<real>, pywt: PyWavelets): (ratio: seq<real>)
    ensures var (hif, lof) := Levels(pywt.dwtMaxLevel(|d|));
      |ratio| == |pywt.downcoef(d, lof)|
  {
    var (hif, lof) := Levels(pywt.dwtMaxLevel(|d|));
    AlignedRatio(NormalizedDetail(d, lof, pywt), NormalizedDetail(d, hif, pywt), lof, hif)
  }

  /** pywt.threshold(data, value, mode='less') on real data: every entry
      greater than the value is replaced by the substitute 0, the rest are kept. */
  function ThresholdLess(data: seq<real>, value: real): (r: seq<real>)
    ensures |r| == |data|
  {
    seq(|data|, i requires 0 <= i < |data| => if data[i] > value then 0.0 else data[i])
  }

  /** On non-negative data, such as modulus maxima, the 'less' mode compares
      the same quantity as the C# UniversalThreshold, which compares moduli. */
  lemma ThresholdLessIsKeepSmall(data: seq<real>, value: real)
    requires forall i :: 0 <= i < |data| ==> data[i] >= 0.0
    ensures ThresholdLess(data, value) == Lhipa.KeepSmall(data, value)
  {
    assert forall i :: 0 <= i < |data| ==> ThresholdLess(data, value)[i] == Lhipa.KeepSmall(data, value)[i];
  }

  /** The thresholded maxima whose non-zero entries lhipa counts: the C#
      universal thresholding of the Python maxima, so every survivor is a
      maximum not above the universal threshold. */
  function Thresholded(d: seq<real>, pywt: PyWavelets): (t: seq<real>)
    ensures var maxima := ModulusMaxima(Ratio(d, pywt));
      t == Lhipa.KeepSmall(maxima, pywt.universalThreshold(maxima))
  {
    var maxima := ModulusMaxima(Ratio(d, pywt));
    forall i | 0 <= i < |maxima|
      ensures maxima[i] >= 0.0
    {
      ModulusMaximaEntries(Ratio(d, pywt), i);
    }
    ThresholdLessIsKeepSmall(maxima, pywt.universalThreshold(maxima));
    ThresholdLess(maxima, pywt.universalThreshold(maxima))
  }

  /** lhipa(d, duration_in_seconds): the count of surviving maxima per sample. */
  method ComputeLhipa(d: seq<real>, durationInSeconds: real, pywt: PyWavelets) returns (r: Result<real, PyError>)
    ensures r.Failure? <==> durationInSeconds == 0.0 || |d| == 0
    ensures r.Success? ==> r.value == CountNonZero(Thresholded(d, pywt)) as real / |d| as real
    ensures r.Success? ==> r.value >= 0.0
  {
    var maxLevel := pywt.dwtMaxLevel(|d|);
    var (hif, lof) := Levels(maxLevel);
    var cD_H := pywt.downcoef(d, hif);
    var cD_L := pywt.downcoef(d, lof);
    cD_H := seq(|cD_H|, i requires 0 <= i < |cD_H| => Quotient(cD_H[i], pywt.sqrtPow2(hif)));
    cD_L := seq(|cD_L|, i requires 0 <= i < |cD_L| => Quotient(cD_L[i], pywt.sqrtPow2(lof)));
    var cD_LH := LowHighRatio(cD_L, cD_H, lof, hif);
    assert cD_LH == Ratio(d, pywt);
    var cD_LHm := Modmax(cD_LH);
    var lambdaUniv := pywt.universalThreshold(cD_LHm);
    var cD_LHt := ThresholdLess(cD_LHm, lambdaUniv);
    var ctr := CountNonZero(cD_LHt);
    r := LhipaValue(ctr, |d|, durationInSeconds);
  }
}
