/** System.Array.Copy, as both C# files use it. */
module Arrays {

  /** Copies src[srcIndex .. srcIndex + length) into dst[dstIndex .. dstIndex + length)
      and leaves the rest of dst as it was. The ranges are in bounds at every
      call site of the model, so the out-of-range exception is not modelled. */
  method Copy(src: seq<real>, srcIndex: nat, dst: array<real>, dstIndex: nat, length: nat)
    requires srcIndex + length <= |src| && dstIndex + length <= dst.Length
    modifies dst
    ensures forall j :: 0 <= j < dst.Length ==>
      dst[j] == if dstIndex <= j < dstIndex + length then src[srcIndex + (j - dstIndex)] else old(dst[j])
  {
    forall j | dstIndex <= j < dstIndex + length {
      dst[j] := src[srcIndex + (j - dstIndex)];
    }
  }
}
