/** The base class of SharpWave's wavelet transforms (a port of JWave): the
    constructor's null check, the power-of-two guard of forward and reverse,
    and the full decomposition matrix used by the LHIPA computation.
    The filter-bank arithmetic of the concrete transform, forward(arr, level)
    and reverse(arr, level), is a parameter of the model. */
module SharpWave {
  import opened Arith
  import Arrays

  datatype TransformError =
    | NotExistent    // Types_NotExistent: no wavelet object was given
    | DataNotValid   // Data_NotValid: the array length is not a power of two

  /** A wavelet family. Only the length of its mother wavelet is visible to the
      core; the filter taps belong to the concrete transform. */
  class Wavelet {
    const name: string
    const motherWaveLength: pos

    constructor (name: string, motherWaveLength: pos)
      ensures this.name == name && this.motherWaveLength == motherWaveLength
    {
      this.name := name;
      this.motherWaveLength := motherWaveLength;
    }
  }

  /** calcExponent: the exponent p of a length 2^p. */
  function CalcExponent(length: nat): (p: nat)
    requires length >= 1
    ensures Pow2(p) <= length < 2 * Pow2(p)
    ensures IsPowerOfTwo(length) ==> Pow2(p) == length
  {
    Log2Floor(length)
  }

  class WaveletTransform {
    const name: string
    const wavelet: Wavelet
    /** forward(arr, level) of the concrete transform: `level` filter steps. */
    const forwardLevels: (seq<real>, nat) -> seq<real>
    /** reverse(arr, level) of the concrete transform. */
    const reverseLevels: (seq<real>, nat) -> seq<real>

    constructor Init(name: string, wavelet: Wavelet,
                     forwardLevels: (seq<real>, nat) -> seq<real>,
                     reverseLevels: (seq<real>, nat) -> seq<real>)
      ensures this.name == name && this.wavelet == wavelet
      ensures this.forwardLevels == forwardLevels && this.reverseLevels == reverseLevels
    {
      this.name := name;
      this.wavelet := wavelet;
      this.forwardLevels := forwardLevels;
      this.reverseLevels := reverseLevels;
    }

    /** The protected constructor: a missing wavelet is rejected, any other is
        stored unchanged. */
    static method Create(name: string, wavelet: Wavelet?,
                         forwardLevels: (seq<real>, nat) -> seq<real>,
                         reverseLevels: (seq<real>, nat) -> seq<real>)
      returns (r: Result<WaveletTransform, TransformError>)
      ensures r.Failure? <==> wavelet == null
      ensures r.Failure? ==> r.error == NotExistent
      ensures r.Success? ==> fresh(r.value) && r.value.wavelet == wavelet && r.value.name == name
      ensures r.Success? ==> r.value.forwardLevels == forwardLevels && r.value.reverseLevels == reverseLevels
    {
      if wavelet == null {
        return Failure(NotExistent);
      }
      var t := new WaveletTransform.Init(name, wavelet, forwardLevels, reverseLevels);
      return Success(t);
    }

    /** The concrete transform keeps the length of the array it transforms. */
    ghost predicate PreservesLength()
    {
      forall a: seq<real>, p: nat :: |forwardLevels(a, p)| == |a|
    }

    /** forward(arrTime): only arrays of length 2^p are accepted, and they are
        transformed by all p levels. */
    function Forward(arrTime: seq<real>): (r: Result<seq<real>, TransformError>)
      ensures r.Failure? <==> !IsPowerOfTwo(|arrTime|)
      ensures r.Failure? ==> r.error == DataNotValid
      ensures r.Success? ==> exists p: nat :: Pow2(p) == |arrTime| && r.value == forwardLevels(arrTime, p)
    {
      if !IsPowerOfTwo(|arrTime|) then Failure(DataNotValid)
      else Success(forwardLevels(arrTime, CalcExponent(|arrTime|)))
    }

    /** reverse(arrHilb): the same guard, delegating to all p levels. */
    function Reverse(arrHilb: seq<real>): (r: Result<seq<real>, TransformError>)
      ensures r.Failure? <==> !IsPowerOfTwo(|arrHilb|)
      ensures r.Failure? ==> r.error == DataNotValid
      ensures r.Success? ==> exists p: nat :: Pow2(p) == |arrHilb| && r.value == reverseLevels(arrHilb, p)
    {
      if !IsPowerOfTwo(|arrHilb|) then Failure(DataNotValid)
      else Success(reverseLevels(arrHilb, CalcExponent(|arrHilb|)))
    }

    /** Row p of the decomposition matrix of arrTime. */
    function Row(arrTime: seq<real>, p: nat): (row: seq<real>)
      requires PreservesLength()
      ensures |row| == |arrTime|
    {
      forwardLevels(arrTime, p)[..|arrTime|]
    }

    /** Row 0 keeps the time series, as decompose promises, once forward by
        zero levels leaves the array as it is. */
    lemma RowZeroIsTimeSeries(arrTime: seq<real>)
      requires PreservesLength() && forwardLevels(arrTime, 0) == arrTime
      ensures Row(arrTime, 0) == arrTime
    {
      assert arrTime[..|arrTime|] == arrTime;
    }

    /** decompose: one row per level 0 .. calcExponent(length), each the first
        `length` values of forward(arrTime, p) computed from arrTime itself. */
    method Decompose(arrTime: array<real>) returns (matDeComp: array<array<real>>)
      requires arrTime.Length >= 1
      requires PreservesLength()
      ensures fresh(matDeComp) && matDeComp.Length == CalcExponent(arrTime.Length) + 1
      ensures forall p :: 0 <= p < matDeComp.Length ==>
        fresh(matDeComp[p]) && matDeComp[p][..] == Row(arrTime[..], p)
    {
      var length := arrTime.Length;
      var levels := CalcExponent(length);
      var empty := new real[0];
      matDeComp := new array<real>[levels + 1](_ => empty);
      for p := 0 to levels + 1
        invariant forall q :: 0 <= q < p ==>
          fresh(matDeComp[q]) && matDeComp[q][..] == Row(arrTime[..], q)
      {
        var row := new real[length](_ => 0.0);
        var coefficients := forwardLevels(arrTime[..], p);
        Arrays.Copy(coefficients, 0, row, 0, length);
        assert row[..] == Row(arrTime[..], p);
        matDeComp[p] := row;
      }
    }
  }
}
