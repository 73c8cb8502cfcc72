/** The copies of modmax and lhipa in lhipa_test.py. They are the reference
    code with debug prints added, so each is the reference model; the
    contracts state what the copies promise in their own terms. */
module PyLhipaTest {
  import opened Arith
  import opened Counting
  import Lhipa
  import PyLhipa

  /** modmax of the test file: same length, each entry 0.0 or |d[i]|, and
      non-zero exactly where the modulus is at least both neighbours (itself
      at the ends) and above one of them. */
  method Modmax(d: seq<real>) returns (t: seq<real>)
    ensures |t| == |d|
    ensures forall i :: 0 <= i < |d| ==> t[i] == 0.0 || t[i] == Abs(d[i])
    ensures forall i :: 0 <= i < |d| ==>
      (t[i] != 0.0 <==> Lhipa.IsModulusMaximum(Lhipa.Moduli(d), i))
  {
    t := PyLhipa.Modmax(d);
    forall i | 0 <= i < |d|
      ensures t[i] == 0.0 || t[i] == Abs(d[i])
      ensures t[i] != 0.0 <==> Lhipa.IsModulusMaximum(Lhipa.Moduli(d), i)
    {
      PyLhipa.ModulusMaximaEntries(d, i);
    }
  }

  /** The ratio loop of the test file: one entry per low-band index, the
      quotient at the multiplied index when it is inside cD_H, 0.0 past it. */
  method LowHighRatio(cD_L: seq<real>, cD_H: seq<real>, lof: nat, hif: nat) returns (cD_LH: seq<real>)
    ensures |cD_LH| == |cD_L|
    ensures forall i :: 0 <= i < |cD_L| ==>
      cD_LH[i] == if PyLhipa.HfIndex(lof, hif, i) < |cD_H|
                  then Quotient(cD_L[i], cD_H[PyLhipa.HfIndex(lof, hif, i)]) else 0.0
  {
    cD_LH := PyLhipa.LowHighRatio(cD_L, cD_H, lof, hif);
  }

  /** lhipa of the test file: hif = 1, lof = max_level // 2, the scaled
      coefficients, the ratio, modmax, the 'less' threshold, the count per
      sample; ZeroDivisionError for a zero duration or an empty signal. */
  method ComputeLhipa(d: seq<real>, durationInSeconds: real, pywt: PyLhipa.PyWavelets)
    returns (r: Result<real, PyLhipa.PyError>)
    ensures r.Failure? <==> durationInSeconds == 0.0 || |d| == 0
    ensures r.Success? ==> r.value == CountNonZero(PyLhipa.Thresholded(d, pywt)) as real / |d| as real
    ensures r.Success? ==> 0.0 <= r.value
  {
    r := PyLhipa.ComputeLhipa(d, durationInSeconds, pywt);
  }
}
