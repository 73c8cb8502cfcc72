/** Counting the entries of a coefficient sequence whose modulus is positive,
    the quantity both implementations report as the number of maxima. */
module Counting {
  import opened Arith

  /** Number of entries x with |x| > 0, counted from the front. */
  function CountNonZero(s: seq<real>): (c: nat)
    ensures c <= |s|
  {
    if |s| == 0 then 0
    else CountNonZero(s[..|s| - 1]) + (if Abs(s[|s| - 1]) > 0.0 then 1 else 0)
  }

  /** The count is zero exactly when every entry is zero. */
  lemma {:induction false} CountZeroIff(s: seq<real>)
    ensures CountNonZero(s) == 0 <==> forall i :: 0 <= i < |s| ==> s[i] == 0.0
  {
    if |s| > 0 {
      var init := s[..|s| - 1];
      CountZeroIff(init);
      assert forall i :: 0 <= i < |init| ==> init[i] == s[i];
    }
  }

  /** If every non-zero entry of b is non-zero in a, b counts no more than a. */
  lemma {:induction false} CountMonotone(a: seq<real>, b: seq<real>)
    requires |a| == |b|
    requires forall i :: 0 <= i < |b| && b[i] != 0.0 ==> a[i] != 0.0
    ensures CountNonZero(b) <= CountNonZero(a)
  {
    if |a| > 0 {
      var a', b' := a[..|a| - 1], b[..|b| - 1];
      assert forall i :: 0 <= i < |b'| ==> b'[i] == b[i] && a'[i] == a[i];
      CountMonotone(a', b');
    }
  }
}
