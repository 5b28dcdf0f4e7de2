/** Contrast vectors as the NumPy code sees them. */
module Vectors {
  /** `np.all(np.array(v) == 0)`; true for the empty vector. */
  predicate AllZero(v: seq<real>) {
    forall j :: 0 <= j < |v| ==> v[j] == 0.0
  }

  /** Some entry is not zero, checked entry by entry from the front. */
  predicate HasNonZero(v: seq<real>) {
    |v| > 0 && (v[0] != 0.0 || HasNonZero(v[1..]))
  }

  /** The entry-by-entry check is the negation of `AllZero`. */
  lemma {:induction false} HasNonZeroIff(v: seq<real>)
    ensures HasNonZero(v) <==> !AllZero(v)
  {
    if |v| > 0 {
      HasNonZeroIff(v[1..]);
      assert forall j :: 1 <= j < |v| ==> v[j] == v[1..][j - 1];
    }
  }
}
